/** The answer-equivalence orchestrator and its reductions over ground truths
    (`exact_match_score_normalized`, `ems_norm`, `ems`, `metric_max_over_ground_truths` in
    utils/evaluation_utils.py). */
module Equivalence {
  import opened Wrappers
  import opened Text
  import opened Normalize
  import opened Dates
  import opened Amounts

  /** `re.match(r'^how (many|much) ', question)`: a case-sensitive prefix test. */
  predicate IsQuantityQuestion(question: string) {
    |question| >= 9 && (question[..9] == "how many " || question[..9] == "how much ")
  }

  /** `exact_match_score_normalized(prediction, ground_truth, question)`: text match, then
      date match, then amount match for quantity questions only. */
  function ExactMatchScoreNormalized(prediction: string, groundTruth: string, question: string): bool {
    if NormalizeAnswer(prediction) == NormalizeAnswer(groundTruth) then true
    else if ExactMatchDate(prediction, groundTruth) then true
    else IsQuantityQuestion(question) && ExactMatchAmount(prediction, groundTruth)
  }

  /** Text match and date match count for every question; amount match only for
      quantity questions. */
  lemma NormalizedCascade(p: string, g: string, q: string)
    ensures IsQuantityQuestion(q) ==>
      ExactMatchScoreNormalized(p, g, q) == (ExactMatchScore(p, g, q) || ExactMatchDate(p, g) || ExactMatchAmount(p, g))
    ensures !IsQuantityQuestion(q) ==>
      ExactMatchScoreNormalized(p, g, q) == (ExactMatchScore(p, g, q) || ExactMatchDate(p, g))
  {
  }

  /** Exact match implies normalised match, which is reflexive. */
  lemma ExactImpliesNormalized(p: string, g: string, q: string)
    ensures ExactMatchScore(p, g, q) ==> ExactMatchScoreNormalized(p, g, q)
    ensures ExactMatchScoreNormalized(p, p, q)
  {
  }

  /** The prefix test is case-sensitive, and the default question `""` is no quantity
      question, so the amount path never contributes with it. */
  lemma QuantityQuestions()
    ensures IsQuantityQuestion("how many moons does Mars have")
    ensures IsQuantityQuestion("how much does it weigh")
    ensures !IsQuantityQuestion("How many moons does Mars have")
    ensures !IsQuantityQuestion("howmany ")
    ensures !IsQuantityQuestion("")
  {
    assert "how many moons does Mars have"[..9] == "how many ";
    assert "how much does it weigh"[..9] == "how much ";
    assert "How many moons does Mars have"[0] == 'H';
  }

  /** With the default question, an amount match alone does not make a normalised match. */
  lemma DefaultQuestion(p: string, g: string)
    ensures ExactMatchScoreNormalized(p, g, "") == (ExactMatchScore(p, g, "") || ExactMatchDate(p, g))
  {
  }

  /** Python's `max` over a list of booleans: the first True, or `ValueError` on `[]`. */
  function MaxOf(scores: seq<bool>): (r: Result<bool>)
    ensures r.Err? <==> scores == []
    ensures r.Err? ==> r.error == ValueError
    ensures r.Ok? ==> (r.value <==> exists k :: 0 <= k < |scores| && scores[k])
    decreases |scores|
  {
    if scores == [] then Err(ValueError)
    else if scores[0] then Ok(true)
    else if |scores| == 1 then Ok(false)
    else
      var r := MaxOf(scores[1..]);
      assert forall k :: 1 <= k < |scores| ==> scores[k] == scores[1..][k - 1];
      r
  }

  /** A metric's score for each ground truth, in order. */
  function Row(metric: (string, string, string) -> bool, prediction: string, groundTruths: seq<string>, question: string): (r: seq<bool>)
    ensures |r| == |groundTruths|
  {
    seq(|groundTruths|, j requires 0 <= j < |groundTruths| => metric(prediction, groundTruths[j], question))
  }

  /** `ems_norm(prediction, ground_truths, question)` */
  function EmsNorm(prediction: string, groundTruths: seq<string>, question: string): (r: Result<bool>)
    ensures r.Err? <==> groundTruths == []
    ensures r.Ok? ==> (r.value <==> exists j :: 0 <= j < |groundTruths| && ExactMatchScoreNormalized(prediction, groundTruths[j], question))
  {
    var scores := Row(ExactMatchScoreNormalized, prediction, groundTruths, question);
    assert forall j :: 0 <= j < |groundTruths| ==> scores[j] == ExactMatchScoreNormalized(prediction, groundTruths[j], question);
    MaxOf(scores)
  }

  /** The fields of a question record `ems` reads; a missing `answer_alias` is `[]`. */
  datatype Qa = Qa(question: string, answer: seq<string>, answerAlias: seq<string>)

  /** `ems(prediction, qa, normalized)`: with `normalized` the answers and their aliases
      are compared with the normalised match, otherwise the answers with exact match. */
  function Ems(prediction: string, qa: Qa, normalized: bool): (r: Result<bool>)
    ensures r.Err? <==> (if normalized then qa.answer + qa.answerAlias else qa.answer) == []
    ensures r.Ok? && normalized ==>
      (r.value <==> exists j :: 0 <= j < |qa.answer + qa.answerAlias| && ExactMatchScoreNormalized(prediction, (qa.answer + qa.answerAlias)[j], qa.question))
    ensures r.Ok? && !normalized ==>
      (r.value <==> exists j :: 0 <= j < |qa.answer| && ExactMatchScore(prediction, qa.answer[j], ""))
  {
    if normalized then
      EmsNorm(prediction, qa.answer + qa.answerAlias, qa.question)
    else
      var scores := Row(ExactMatchScore, prediction, qa.answer, "");
      assert forall j :: 0 <= j < |qa.answer| ==> scores[j] == ExactMatchScore(prediction, qa.answer[j], "");
      MaxOf(scores)
  }

  // ---------------------------------------------------------------------------------
  // metric_max_over_ground_truths
  // ---------------------------------------------------------------------------------

  /** `predictions` is a single string or a list of them. */
  datatype Predictions = Single(text: string) | Many(texts: seq<string>)

  /** `if isinstance(predictions, str): predictions = [predictions]` */
  function AsList(predictions: Predictions): (r: seq<string>)
    ensures predictions.Single? ==> r == [predictions.text]
    ensures predictions.Many? ==> r == predictions.texts
  {
    match predictions
    case Single(t) => [t]
    case Many(ts) => ts
  }

  /** The scores the nested loops append, predictions outermost. */
  function Scores(metric: (string, string, string) -> bool, predictions: seq<string>, groundTruths: seq<string>, question: string): seq<bool>
    decreases |predictions|
  {
    if predictions == [] then []
    else Scores(metric, predictions[..|predictions| - 1], groundTruths, question)
         + Row(metric, predictions[|predictions| - 1], groundTruths, question)
  }

  /** What `metric_max_over_ground_truths` returns: whether some prediction scores against
      some ground truth, or `ValueError` when there is no pair to score. */
  function MetricMax(metric: (string, string, string) -> bool, predictions: Predictions, groundTruths: seq<string>, question: string): Result<bool> {
    var ps := AsList(predictions);
    if ps == [] || groundTruths == [] then Err(ValueError)
    else Ok(AnyPair(metric, ps, groundTruths, question))
  }

  /** `metric_max_over_ground_truths(metric_fn, predictions, ground_truths, question)` */
  method MetricMaxOverGroundTruths(metric: (string, string, string) -> bool, predictions: Predictions,
                                   groundTruths: seq<string>, question: string)
    returns (r: Result<bool>)
    ensures r == MetricMax(metric, predictions, groundTruths, question)
  {
    var scores: seq<bool> := [];
    var ps := AsList(predictions);
    for i := 0 to |ps|
      invariant scores == Scores(metric, ps[..i], groundTruths, question)
    {
      for j := 0 to |groundTruths|
        invariant scores == Scores(metric, ps[..i], groundTruths, question) + Row(metric, ps[i], groundTruths[..j], question)
      {
        var score := metric(ps[i], groundTruths[j], question);
        RowSnoc(metric, ps[i], groundTruths, question, j);
        scores := scores + [score];
      }
      assert groundTruths[..|groundTruths|] == groundTruths;
      assert ps[..i + 1][..i] == ps[..i];
    }
    assert ps[..|ps|] == ps;
    r := MaxOf(scores);
    ScoresMax(metric, ps, groundTruths, question);
  }

  lemma RowSnoc(metric: (string, string, string) -> bool, p: string, gts: seq<string>, q: string, j: nat)
    requires j < |gts|
    ensures Row(metric, p, gts[..j + 1], q) == Row(metric, p, gts[..j], q) + [metric(p, gts[j], q)]
  {
  }

  lemma {:induction false} ScoresLength(metric: (string, string, string) -> bool, ps: seq<string>, gts: seq<string>, q: string)
    ensures |Scores(metric, ps, gts, q)| == |ps| * |gts|
    decreases |ps|
  {
    if ps != [] {
      ScoresLength(metric, ps[..|ps| - 1], gts, q);
      assert |ps| * |gts| == (|ps| - 1) * |gts| + |gts|;
    }
  }

  predicate AnyTrue(scores: seq<bool>) {
    exists k :: 0 <= k < |scores| && scores[k]
  }

  predicate AnyPair(metric: (string, string, string) -> bool, ps: seq<string>, gts: seq<string>, q: string) {
    exists i, j :: 0 <= i < |ps| && 0 <= j < |gts| && metric(ps[i], gts[j], q)
  }

  /** The scores hold a True exactly when some pair scores. */
  lemma {:induction false} ScoresAny(metric: (string, string, string) -> bool, ps: seq<string>, gts: seq<string>, q: string)
    ensures AnyTrue(Scores(metric, ps, gts, q)) <==> AnyPair(metric, ps, gts, q)
    decreases |ps|
  {
    if ps != [] {
      var init := ps[..|ps| - 1];
      ScoresAny(metric, init, gts, q);
      AnyTrueAppend(Scores(metric, init, gts, q), Row(metric, ps[|ps| - 1], gts, q));
      AnyPairSnoc(metric, ps, gts, q);
    }
  }

  lemma AnyTrueAppend(a: seq<bool>, b: seq<bool>)
    ensures AnyTrue(a + b) <==> AnyTrue(a) || AnyTrue(b)
  {
    if AnyTrue(a + b) {
      var k :| 0 <= k < |a + b| && (a + b)[k];
      if k >= |a| {
        assert b[k - |a|];
      }
    }
    if AnyTrue(a) {
      var k :| 0 <= k < |a| && a[k];
      assert (a + b)[k];
    }
    if AnyTrue(b) {
      var k :| 0 <= k < |b| && b[k];
      assert (a + b)[|a| + k];
    }
  }

  lemma AnyPairSnoc(metric: (string, string, string) -> bool, ps: seq<string>, gts: seq<string>, q: string)
    requires ps != []
    ensures AnyPair(metric, ps, gts, q)
            <==> AnyPair(metric, ps[..|ps| - 1], gts, q) || AnyTrue(Row(metric, ps[|ps| - 1], gts, q))
  {
    var init := ps[..|ps| - 1];
    var row := Row(metric, ps[|ps| - 1], gts, q);
    if AnyPair(metric, ps, gts, q) {
      var i, j :| 0 <= i < |ps| && 0 <= j < |gts| && metric(ps[i], gts[j], q);
      if i < |init| {
        assert init[i] == ps[i];
      } else {
        assert row[j];
      }
    }
    if AnyPair(metric, init, gts, q) {
      var i, j :| 0 <= i < |init| && 0 <= j < |gts| && metric(init[i], gts[j], q);
      assert ps[i] == init[i];
    }
    if AnyTrue(row) {
      var j :| 0 <= j < |row| && row[j];
      assert metric(ps[|ps| - 1], gts[j], q);
    }
  }

  lemma ScoresMax(metric: (string, string, string) -> bool, ps: seq<string>, gts: seq<string>, q: string)
    ensures MaxOf(Scores(metric, ps, gts, q)) == MetricMax(metric, Many(ps), gts, q)
  {
    ScoresAny(metric, ps, gts, q);
    ScoresLength(metric, ps, gts, q);
    if ps != [] && gts != [] {
      assert |ps| * |gts| > 0;
    }
  }

  /** A bare prediction is scored as a one-element list. */
  lemma SingleIsList(metric: (string, string, string) -> bool, t: string, gts: seq<string>, q: string)
    ensures MetricMax(metric, Single(t), gts, q) == MetricMax(metric, Many([t]), gts, q)
    ensures gts != [] ==>
      MetricMax(metric, Single(t), gts, q) == Ok(exists j :: 0 <= j < |gts| && metric(t, gts[j], q))
  {
    if gts != [] {
      if exists j :: 0 <= j < |gts| && metric(t, gts[j], q) {
        var j :| 0 <= j < |gts| && metric(t, gts[j], q);
        assert [t][0] == t;
      }
    }
  }

  /** tests/test_evaluation_utils.py:35, with exact match as the metric. */
  lemma MetricMaxExample()
    ensures MetricMax(ExactMatchScore, Single("Los Angeles Dodgers"), ["Los Angeles Dodgers"], "") == Ok(true)
  {
    var t := "Los Angeles Dodgers";
    assert ExactMatchScore([t][0], [t][0], "");
  }

  /** `ems(..., normalized=False)` finding a match implies `ems(..., normalized=True)` does:
      exact match is the first branch of the normalised match, and the answers are among
      the answers and aliases. */
  lemma EmsExactImpliesNormalized(p: string, qa: Qa)
    ensures Ems(p, qa, false) == Ok(true) ==> Ems(p, qa, true) == Ok(true)
  {
    if Ems(p, qa, false) == Ok(true) {
      var j :| 0 <= j < |qa.answer| && ExactMatchScore(p, qa.answer[j], "");
      var all := qa.answer + qa.answerAlias;
      assert all[j] == qa.answer[j];
      assert ExactMatchScoreNormalized(p, all[j], qa.question);
    }
  }
}
