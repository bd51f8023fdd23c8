/**
 * The precision scorer (GreenEye.py lines 100-112). For every index of the
 * ground truth, each predicted circle is a true positive when it occurs,
 * by exact structural equality, among the ground-truth circles of the same
 * index, and a false positive otherwise. Triangles are only counted into
 * `ground_truth_amount`, which the precision never uses.
 */
module Scorer {
  import opened Wrappers
  import opened Annotations

  datatype Tally = Tally(groundTruthAmount: nat, truePositive: nat, falsePositive: nat)

  datatype ScoreError =
    | IndexError(index: nat)   // `prediction_polygons[i]` past the end of the predictions
    | ZeroDivisionError        // `true_positive / (true_positive + false_positive)` with a zero sum

  /** How many of the predicted polygons occur in `truth`. */
  function Hits(truth: seq<Polygon>, predicted: seq<Polygon>): nat
    decreases |predicted|
  {
    if predicted == [] then 0
    else Hits(truth, predicted[..|predicted| - 1]) + (if predicted[|predicted| - 1] in truth then 1 else 0)
  }

  /** How many of the predicted polygons do not occur in `truth`. */
  function Misses(truth: seq<Polygon>, predicted: seq<Polygon>): nat
    decreases |predicted|
  {
    if predicted == [] then 0
    else Misses(truth, predicted[..|predicted| - 1]) + (if predicted[|predicted| - 1] in truth then 0 else 1)
  }

  /** True positives over the first `n` indices. */
  function TruePositives(gt: seq<Record>, pred: seq<Record>, n: nat): nat
    requires n <= |gt| && n <= |pred|
  {
    if n == 0 then 0 else TruePositives(gt, pred, n - 1) + Hits(gt[n - 1].circle, pred[n - 1].circle)
  }

  /** False positives over the first `n` indices. */
  function FalsePositives(gt: seq<Record>, pred: seq<Record>, n: nat): nat
    requires n <= |gt| && n <= |pred|
  {
    if n == 0 then 0 else FalsePositives(gt, pred, n - 1) + Misses(gt[n - 1].circle, pred[n - 1].circle)
  }

  /** Ground-truth polygons of both categories over the first `n` indices. */
  function GroundTruthAmount(gt: seq<Record>, n: nat): nat
    requires n <= |gt|
  {
    if n == 0 then 0 else GroundTruthAmount(gt, n - 1) + PolygonCount(gt[n - 1])
  }

  /** Predicted circles over the first `n` indices. */
  function PredictedCircles(pred: seq<Record>, n: nat): nat
    requires n <= |pred|
  {
    if n == 0 then 0 else PredictedCircles(pred, n - 1) + |pred[n - 1].circle|
  }

  /** The counters the loop leaves, or the IndexError it raises at index `|pred|`. */
  function Score(gt: seq<Record>, pred: seq<Record>): (r: Result<Tally, ScoreError>)
    ensures r.Err? <==> |pred| < |gt|
    ensures r.Ok? ==> r.value.truePositive + r.value.falsePositive == PredictedCircles(pred, |gt|)
  {
    if |pred| < |gt| then Err(IndexError(|pred|))
    else
      PositivesCoverPredictions(gt, pred, |gt|);
      Ok(Tally(GroundTruthAmount(gt, |gt|), TruePositives(gt, pred, |gt|), FalsePositives(gt, pred, |gt|)))
  }

  /** The counting loop of lines 100-110. */
  method CountPositives(gt: seq<Record>, pred: seq<Record>) returns (r: Result<Tally, ScoreError>)
    ensures r == Score(gt, pred)
    ensures r.Err? <==> |pred| < |gt|
    ensures r.Ok? ==> r.value.truePositive + r.value.falsePositive == PredictedCircles(pred, |gt|)
  {
    var groundTruthAmount, truePositive, falsePositive := 0, 0, 0;
    for i := 0 to |gt|
      invariant i <= |pred|
      invariant groundTruthAmount == GroundTruthAmount(gt, i)
      invariant truePositive == TruePositives(gt, pred, i)
      invariant falsePositive == FalsePositives(gt, pred, i)
    {
      groundTruthAmount := groundTruthAmount + |gt[i].circle| + |gt[i].triangle|;
      if i >= |pred| {
        return Err(IndexError(i));
      }
      var circles := pred[i].circle;
      for k := 0 to |circles|
        invariant truePositive == TruePositives(gt, pred, i) + Hits(gt[i].circle, circles[..k])
        invariant falsePositive == FalsePositives(gt, pred, i) + Misses(gt[i].circle, circles[..k])
      {
        assert circles[..k + 1][..k] == circles[..k];
        if circles[k] in gt[i].circle {
          truePositive := truePositive + 1;
        } else {
          falsePositive := falsePositive + 1;
        }
      }
      assert circles[..|circles|] == circles;
    }
    return Ok(Tally(groundTruthAmount, truePositive, falsePositive));
  }

  /** Line 112: the share of true positives among all predicted circles scored. */
  function Precision(t: Tally): (r: Result<real, ScoreError>)
    ensures r.Err? <==> t.truePositive + t.falsePositive == 0
    ensures r.Ok? ==> 0.0 <= r.value <= 1.0
    ensures r.Ok? ==> (r.value == 1.0 <==> t.falsePositive == 0)
    ensures r.Ok? ==> (r.value == 0.0 <==> t.truePositive == 0)
  {
    var total := t.truePositive + t.falsePositive;
    if total == 0 then Err(ZeroDivisionError)
    else
      var p := (t.truePositive as real) / (total as real);
      assert p * (total as real) == t.truePositive as real;
      Ok(p)
  }

  /** Lines 100-112 together: counting, then dividing. */
  function ScorePrecision(gt: seq<Record>, pred: seq<Record>): (r: Result<real, ScoreError>)
    ensures r == Err(IndexError(|pred|)) <==> |pred| < |gt|
    ensures r == Err(ZeroDivisionError) <==> |gt| <= |pred| && PredictedCircles(pred, |gt|) == 0
    ensures r.Ok? ==> 0.0 <= r.value <= 1.0
  {
    match Score(gt, pred)
    case Err(e) => Err(e)
    case Ok(t) => Precision(t)
  }

  /** Every predicted circle scored is exactly one of a hit or a miss. */
  lemma {:induction false} HitsPlusMisses(truth: seq<Polygon>, predicted: seq<Polygon>)
    ensures Hits(truth, predicted) + Misses(truth, predicted) == |predicted|
    decreases |predicted|
  {
    if predicted != [] {
      HitsPlusMisses(truth, predicted[..|predicted| - 1]);
    }
  }

  /** Every prediction hits exactly when no prediction misses. */
  lemma {:induction false} NoMissesIff(truth: seq<Polygon>, predicted: seq<Polygon>)
    ensures Misses(truth, predicted) == 0 <==> forall k :: 0 <= k < |predicted| ==> predicted[k] in truth
    decreases |predicted|
  {
    if predicted != [] {
      var init := predicted[..|predicted| - 1];
      NoMissesIff(truth, init);
      assert forall k :: 0 <= k < |init| ==> init[k] == predicted[k];
    }
  }

  /** No prediction hits exactly when none occurs in the truth. */
  lemma {:induction false} NoHitsIff(truth: seq<Polygon>, predicted: seq<Polygon>)
    ensures Hits(truth, predicted) == 0 <==> forall k :: 0 <= k < |predicted| ==> predicted[k] !in truth
    decreases |predicted|
  {
    if predicted != [] {
      var init := predicted[..|predicted| - 1];
      NoHitsIff(truth, init);
      assert forall k :: 0 <= k < |init| ==> init[k] == predicted[k];
    }
  }

  /** The two counters together count every predicted circle over the scored indices. */
  lemma {:induction false} PositivesCoverPredictions(gt: seq<Record>, pred: seq<Record>, n: nat)
    requires n <= |gt| && n <= |pred|
    ensures TruePositives(gt, pred, n) + FalsePositives(gt, pred, n) == PredictedCircles(pred, n)
  {
    if n > 0 {
      PositivesCoverPredictions(gt, pred, n - 1);
      HitsPlusMisses(gt[n - 1].circle, pred[n - 1].circle);
    }
  }

  /** Triangles, predicted or true, never change the two positive counters. */
  lemma {:induction false} TrianglesIgnored(gt: seq<Record>, pred: seq<Record>,
                                            gt': seq<Record>, pred': seq<Record>, n: nat)
    requires n <= |gt| == |gt'| && n <= |pred| == |pred'|
    requires forall i :: 0 <= i < n ==> gt[i].circle == gt'[i].circle && pred[i].circle == pred'[i].circle
    ensures TruePositives(gt, pred, n) == TruePositives(gt', pred', n)
    ensures FalsePositives(gt, pred, n) == FalsePositives(gt', pred', n)
  {
    if n > 0 {
      TrianglesIgnored(gt, pred, gt', pred', n - 1);
    }
  }

  /** `ground_truth_amount` has no effect on the precision. */
  lemma AmountIgnored(t: Tally, amount: nat)
    ensures Precision(t) == Precision(t.(groundTruthAmount := amount))
  {
  }

  /** Scoring the ground truth against itself: no false positive, every circle a true positive. */
  lemma {:induction false} SelfScoreCounts(gt: seq<Record>, n: nat)
    requires n <= |gt|
    ensures FalsePositives(gt, gt, n) == 0
    ensures TruePositives(gt, gt, n) == PredictedCircles(gt, n)
  {
    if n > 0 {
      SelfScoreCounts(gt, n - 1);
      var circles := gt[n - 1].circle;
      NoMissesIff(circles, circles);
      HitsPlusMisses(circles, circles);
    }
  }

  /** Hence the precision of the ground truth against itself is 1 whenever it holds a circle. */
  lemma SelfPrecision(gt: seq<Record>)
    requires PredictedCircles(gt, |gt|) > 0
    ensures ScorePrecision(gt, gt) == Ok(1.0)
  {
    SelfScoreCounts(gt, |gt|);
  }

  /** Predictions sharing no circle with the ground truth score no true positive. */
  lemma {:induction false} DisjointScoresNothing(gt: seq<Record>, pred: seq<Record>, n: nat)
    requires n <= |gt| && n <= |pred|
    requires forall i, k :: 0 <= i < n && 0 <= k < |pred[i].circle| ==> pred[i].circle[k] !in gt[i].circle
    ensures TruePositives(gt, pred, n) == 0
  {
    if n > 0 {
      DisjointScoresNothing(gt, pred, n - 1);
      NoHitsIff(gt[n - 1].circle, pred[n - 1].circle);
    }
  }

  /** So such predictions, when there are any, have precision 0. */
  lemma DisjointPrecision(gt: seq<Record>, pred: seq<Record>)
    requires |gt| <= |pred|
    requires PredictedCircles(pred, |gt|) > 0
    requires forall i, k :: 0 <= i < |gt| && 0 <= k < |pred[i].circle| ==> pred[i].circle[k] !in gt[i].circle
    ensures ScorePrecision(gt, pred) == Ok(0.0)
  {
    DisjointScoresNothing(gt, pred, |gt|);
    PositivesCoverPredictions(gt, pred, |gt|);
  }

  /** One matching and one extra predicted box: one of each, precision one half. */
  lemma HalfPrecisionExample()
    ensures var gt := [Record([[(0, 0), (10, 10)]], [])];
            var pred := [Record([[(0, 0), (10, 10)], [(5, 5), (6, 6)]], [])];
            Score(gt, pred) == Ok(Tally(1, 1, 1)) && ScorePrecision(gt, pred) == Ok(0.5)
  {
    var truth: seq<Polygon> := [[(0, 0), (10, 10)]];
    var predicted: seq<Polygon> := [[(0, 0), (10, 10)], [(5, 5), (6, 6)]];
    assert predicted[..1] == truth;
    assert truth[..0] == [];
    assert [(5, 5), (6, 6)] !in truth;
    assert Hits(truth, predicted) == 1 && Misses(truth, predicted) == 1;
  }

  /** Nothing predicted and nothing true: the division has no denominator. */
  lemma EmptyScoreDivides()
    ensures ScorePrecision([Record([], [])], [Record([], [])]) == Err(ZeroDivisionError)
  {
    var empty := [Record([], [])];
    assert Hits([], []) == 0 && Misses([], []) == 0;
    assert TruePositives(empty, empty, 1) == 0 && FalsePositives(empty, empty, 1) == 0;
  }
}
