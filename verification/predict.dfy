/** The two `/api/predict` services. A body without `text` gets a 400 reply;
    otherwise the classifier's per-class probabilities are filtered at 0.3
    and reported in class order, each with its label and its score rounded
    to three decimals, next to the text as it was received. The Keras
    service classifies the cleaned text, the RoBERTa service the text as it
    is. Classifiers are oracles from text to probabilities. */
module Predict {
  import opened Common
  import TextCleaning

  const Threshold: real := 0.3
  const TextRequired := "Text field is required."

  // ---------------------------------------------------------------------------
  // Selection by threshold

  /** The classes below `n` whose probability exceeds the threshold, in
      ascending order. */
  function PassingBelow(probs: seq<real>, n: nat): (ix: seq<nat>)
    requires n <= |probs|
    ensures forall k :: 0 <= k < |ix| ==> ix[k] < n && probs[ix[k]] > Threshold
    ensures forall a, b :: 0 <= a < b < |ix| ==> ix[a] < ix[b]
  {
    if n == 0 then []
    else
      var ix := PassingBelow(probs, n - 1);
      if probs[n - 1] > Threshold then
        var r := ix + [n - 1];
        assert forall k :: 0 <= k < |ix| ==> r[k] == ix[k];
        r
      else ix
  }

  /** Strictly increasing indices below `n` number at most `n`. */
  lemma {:induction false} IncreasingBelow(ix: seq<nat>, n: nat)
    requires forall k :: 0 <= k < |ix| ==> ix[k] < n
    requires forall a, b :: 0 <= a < b < |ix| ==> ix[a] < ix[b]
    ensures |ix| <= n
    decreases |ix|
  {
    if |ix| > 0 {
      var last := ix[|ix| - 1];
      IncreasingBelow(ix[..|ix| - 1], last);
    }
  }

  // ---------------------------------------------------------------------------
  // `round(score, 3)` on the exact value

  /** The integer nearest to `y`, a tie going to the even neighbour. */
  function RoundHalfEven(y: real): (n: int)
    ensures y - 0.5 <= n as real <= y + 0.5
    ensures n as real - y == 0.5 || y - n as real == 0.5 ==> n % 2 == 0
    ensures n >= y.Floor
  {
    var f := y.Floor;
    var d := y - f as real;
    if d < 0.5 then f
    else if d > 0.5 then f + 1
    else if f % 2 == 0 then f
    else f + 1
  }

  /** `round(x, 3)`: the nearest multiple of 0.001, ties to even. */
  function Round3(x: real): (r: real)
    ensures x - 0.0005 <= r <= x + 0.0005
    ensures (r * 1000.0).Floor as real == r * 1000.0
    ensures r - x == 0.0005 || x - r == 0.0005 ==> (r * 1000.0).Floor % 2 == 0
  {
    var n := RoundHalfEven(x * 1000.0);
    assert n as real / 1000.0 * 1000.0 == n as real;
    n as real / 1000.0
  }

  function Abs(y: real): real {
    if y < 0.0 then -y else y
  }

  /** No integer is nearer to `y` than the one `RoundHalfEven` picks. */
  lemma RoundHalfEvenNearest(y: real, m: int)
    ensures Abs(RoundHalfEven(y) as real - y) <= Abs(m as real - y)
  {
    var n := RoundHalfEven(y);
    if m < n {
      assert m as real <= n as real - 1.0;
      assert y - m as real >= 0.5;
    } else if m > n {
      assert m as real >= n as real + 1.0;
      assert m as real - y >= 0.5;
    }
  }

  /** No multiple of 0.001 is nearer to `x` than `Round3(x)`. */
  lemma Round3Nearest(x: real, k: int)
    ensures Abs(Round3(x) - x) <= Abs(k as real / 1000.0 - x)
  {
    var n := RoundHalfEven(x * 1000.0);
    RoundHalfEvenNearest(x * 1000.0, k);
    assert Round3(x) - x == (n as real - x * 1000.0) / 1000.0;
    assert k as real / 1000.0 - x == (k as real - x * 1000.0) / 1000.0;
  }

  /** A probability that passed the threshold is never reported below it. */
  lemma RoundedStaysAtThreshold(x: real)
    requires x > Threshold
    ensures Round3(x) >= Threshold
  {
    assert (x * 1000.0).Floor >= 300;
  }

  /** A probability just above the threshold is reported as exactly 0.3. */
  lemma ReportedScoreCanEqualThreshold()
    ensures 0.3004 > Threshold && Round3(0.3004) == Threshold
  {
    assert 0.3004 * 1000.0 == 300.4;
    assert (300.4).Floor == 300;
  }

  // ---------------------------------------------------------------------------
  // Labelled predictions

  datatype Prediction = Prediction(name: string, score: real)

  /** The list comprehension over the first `n` classes: each passing class
      with its label and rounded score. Looking up a label that is not there
      raises, which the service turns into a 500 reply (`None`). */
  function LabelledBelow(labelOf: nat -> Option<string>, probs: seq<real>, n: nat): (r: Option<seq<Prediction>>)
    requires n <= |probs|
    ensures r.None? <==> exists i :: 0 <= i < n && probs[i] > Threshold && labelOf(i).None?
    ensures r.Some? ==>
      var ix := PassingBelow(probs, n);
      && |r.value| == |ix|
      && forall k :: 0 <= k < |ix| ==>
           labelOf(ix[k]).Some? && r.value[k] == Prediction(labelOf(ix[k]).value, Round3(probs[ix[k]]))
  {
    if n == 0 then Some([])
    else
      match LabelledBelow(labelOf, probs, n - 1)
      case None => None
      case Some(ps) =>
        if probs[n - 1] > Threshold then
          match labelOf(n - 1)
          case None => None
          case Some(name) => Some(ps + [Prediction(name, Round3(probs[n - 1]))])
        else Some(ps)
  }

  function Labelled(labelOf: nat -> Option<string>, probs: seq<real>): Option<seq<Prediction>> {
    LabelledBelow(labelOf, probs, |probs|)
  }

  /** A class is among those reported exactly when its probability exceeds
      0.3. */
  lemma PassingIff(probs: seq<real>, i: nat)
    requires i < |probs|
    ensures probs[i] > Threshold <==> i in PassingBelow(probs, |probs|)
  {
    var ix := PassingBelow(probs, |probs|);
    if i in ix {
      var k :| 0 <= k < |ix| && ix[k] == i;
    }
    if probs[i] > Threshold {
      PassingComplete(probs, |probs|, i);
    }
  }

  /** Every class below `n` above the threshold is selected. */
  lemma {:induction false} PassingComplete(probs: seq<real>, n: nat, i: nat)
    requires n <= |probs| && i < n && probs[i] > Threshold
    ensures i in PassingBelow(probs, n)
    decreases n
  {
    var ix := PassingBelow(probs, n - 1);
    if i < n - 1 {
      PassingComplete(probs, n - 1, i);
      var k :| 0 <= k < |ix| && ix[k] == i;
      if probs[n - 1] > Threshold {
        assert (ix + [n - 1])[k] == i;
      }
    } else {
      assert (ix + [n - 1])[|ix|] == n - 1;
    }
  }

  /** Every reported score is at least 0.3. */
  lemma ReportedScoresAtLeastThreshold(labelOf: nat -> Option<string>, probs: seq<real>)
    requires Labelled(labelOf, probs).Some?
    ensures var ps := Labelled(labelOf, probs).value;
      forall k :: 0 <= k < |ps| ==> ps[k].score >= Threshold
  {
    var ix := PassingBelow(probs, |probs|);
    var ps := Labelled(labelOf, probs).value;
    forall k | 0 <= k < |ps| ensures ps[k].score >= Threshold {
      RoundedStaysAtThreshold(probs[ix[k]]);
    }
  }

  /** `emotion_labels[i]`: a list lookup. */
  function ListLabel(labels: seq<string>): nat -> Option<string> {
    (i: nat) => if i < |labels| then Some(labels[i]) else None
  }

  /** `id2label[i]`: a dictionary lookup. */
  function MapLabel(id2label: map<nat, string>): nat -> Option<string> {
    (i: nat) => if i in id2label then Some(id2label[i]) else None
  }

  // ---------------------------------------------------------------------------
  // The two services

  /** A JSON body's string fields. */
  type Body = map<string, string>

  datatype Reply =
    | Predicted(text: string, predictions: seq<Prediction>)
    | BadRequest(error: string)
    | InternalError

  /** The Keras service's fixed parts: the character database, stopwords
      and lemmatizer of the cleaning step, the classifier (tokenizer,
      padding and model) and the label list. */
  datatype KerasService = KerasService(
    db: TextCleaning.CharDb, stop: set<string>, lemmatize: string -> string,
    classify: string -> seq<real>, labels: seq<string>)

  /** The comprehension over a label list: it raises exactly when a passing
      class lies beyond the list, and otherwise labels each passing class by
      its position, so no more classes are reported than there are labels. */
  lemma ListLabelled(labels: seq<string>, probs: seq<real>)
    ensures var r := Labelled(ListLabel(labels), probs);
      var ix := PassingBelow(probs, |probs|);
      && (r.None? <==> exists i :: 0 <= i < |probs| && probs[i] > Threshold && i >= |labels|)
      && (r.Some? ==>
            && |r.value| == |ix| && |ix| <= |labels|
            && forall k :: 0 <= k < |ix| ==>
                 ix[k] < |labels| && r.value[k] == Prediction(labels[ix[k]], Round3(probs[ix[k]])))
  {
    var r := Labelled(ListLabel(labels), probs);
    var ix := PassingBelow(probs, |probs|);
    if r.Some? {
      assert forall k :: 0 <= k < |ix| ==> ix[k] < |labels|;
      IncreasingBelow(ix, |labels|);
    }
  }

  /** `predict` of the Keras service. */
  function KerasPredict(body: Body, svc: KerasService): (r: Reply)
    ensures r.BadRequest? <==> "text" !in body
    ensures r.BadRequest? ==> r.error == TextRequired
    ensures r.Predicted? ==>
      && r.text == body["text"]
      && |r.predictions| <= |svc.labels|
      && forall k :: 0 <= k < |r.predictions| ==> r.predictions[k].name in svc.labels
    ensures "text" in body ==>
      var probs := svc.classify(TextCleaning.Preprocess(svc.db, svc.stop, svc.lemmatize, body["text"]));
      var ix := PassingBelow(probs, |probs|);
      && (r.InternalError? <==> exists i :: 0 <= i < |probs| && probs[i] > Threshold && i >= |svc.labels|)
      && (r.Predicted? ==>
            && |r.predictions| == |ix|
            && forall k :: 0 <= k < |ix| ==>
                 ix[k] < |svc.labels| && r.predictions[k] == Prediction(svc.labels[ix[k]], Round3(probs[ix[k]])))
  {
    if "text" !in body then BadRequest(TextRequired)
    else
      var raw := body["text"];
      var probs := svc.classify(TextCleaning.Preprocess(svc.db, svc.stop, svc.lemmatize, raw));
      ListLabelled(svc.labels, probs);
      match Labelled(ListLabel(svc.labels), probs)
      case None => InternalError
      case Some(ps) => Predicted(raw, ps)
  }

  /** The Keras service sees only the cleaned text: two texts that clean
      alike get the same outcome, each echoed as it was received. */
  lemma KerasSeesCleanedText(body1: Body, body2: Body, svc: KerasService)
    requires "text" in body1 && "text" in body2
    requires TextCleaning.Preprocess(svc.db, svc.stop, svc.lemmatize, body1["text"])
          == TextCleaning.Preprocess(svc.db, svc.stop, svc.lemmatize, body2["text"])
    ensures var r1 := KerasPredict(body1, svc);
      var r2 := KerasPredict(body2, svc);
      && r1.InternalError? == r2.InternalError?
      && (r1.Predicted? ==> r1.text == body1["text"] && r2.text == body2["text"] && r1.predictions == r2.predictions)
  {
  }

  /** `predict` of the RoBERTa service: softmax probabilities of the text as
      it is, labelled through `id2label`. */
  function RobertaPredict(body: Body, id2label: map<nat, string>, softmax: string -> seq<real>): (r: Reply)
    ensures r.BadRequest? <==> "text" !in body
    ensures r.BadRequest? ==> r.error == TextRequired
    ensures r.Predicted? ==> r.text == body["text"]
    ensures "text" in body ==>
      var probs := softmax(body["text"]);
      var ix := PassingBelow(probs, |probs|);
      && (r.InternalError? <==> exists i :: 0 <= i < |probs| && probs[i] > Threshold && i !in id2label)
      && (r.Predicted? ==>
            && |r.predictions| == |ix|
            && forall k :: 0 <= k < |ix| ==>
                 ix[k] in id2label && r.predictions[k] == Prediction(id2label[ix[k]], Round3(probs[ix[k]])))
  {
    if "text" !in body then BadRequest(TextRequired)
    else
      var text := body["text"];
      match Labelled(MapLabel(id2label), softmax(text))
      case None => InternalError
      case Some(ps) => Predicted(text, ps)
  }

  // ---------------------------------------------------------------------------
  // The softmax bound

  function Sum(s: seq<real>, n: nat): real
    requires n <= |s|
  {
    if n == 0 then 0.0 else Sum(s, n - 1) + s[n - 1]
  }

  predicate IsDistribution(probs: seq<real>) {
    (forall i :: 0 <= i < |probs| ==> probs[i] >= 0.0) && Sum(probs, |probs|) == 1.0
  }

  /** Non-negative values sum to at least 0.3 per value above 0.3. */
  lemma {:induction false} SumCoversPassing(probs: seq<real>, n: nat)
    requires n <= |probs|
    requires forall i :: 0 <= i < |probs| ==> probs[i] >= 0.0
    ensures Sum(probs, n) >= Threshold * |PassingBelow(probs, n)| as real
    decreases n
  {
    if n > 0 {
      SumCoversPassing(probs, n - 1);
    }
  }

  /** Softmax probabilities are non-negative and sum to 1, so at most three
      classes pass 0.3. */
  lemma AtMostThreePass(probs: seq<real>)
    requires IsDistribution(probs)
    ensures |PassingBelow(probs, |probs|)| <= 3
  {
    SumCoversPassing(probs, |probs|);
  }

  /** Three can: the bound is reached. */
  lemma ThreeCanPass()
    ensures IsDistribution([0.31, 0.33, 0.36]) && |PassingBelow([0.31, 0.33, 0.36], 3)| == 3
  {
    var p := [0.31, 0.33, 0.36];
    assert Sum(p, 1) == 0.31;
    assert Sum(p, 2) == 0.64;
    assert Sum(p, 3) == 1.0;
    assert p[0] > Threshold && p[1] > Threshold && p[2] > Threshold;
    assert |PassingBelow(p, 1)| == 1;
    assert |PassingBelow(p, 2)| == 2;
  }

  /** The RoBERTa service reports at most three emotions. */
  lemma RobertaAtMostThree(body: Body, id2label: map<nat, string>, softmax: string -> seq<real>)
    requires "text" in body && IsDistribution(softmax(body["text"]))
    ensures var r := RobertaPredict(body, id2label, softmax);
      r.Predicted? ==> |r.predictions| <= 3
  {
    AtMostThreePass(softmax(body["text"]));
  }
}
