/**
 * The baseline evaluation script: every line of the augmented dataset is joined with
 * the original dataset's answers and with the retrieval results of the same line,
 * scored at EM@{1, 5, 10, 50} and written out. Unlike the experiment script, the
 * normalised score is taken against the augmented answers as they stand and the
 * exact score against the original answers.
 */
module BaselineEvaluation {
  import opened Wrappers
  import opened Normalize
  import opened Equivalence
  import opened Records
  import opened Retrieval
  import opened ExperimentEvaluation

  /** `augment_qa_em_scores` of the baseline script: the normalised flags against
      `answer`, the exact flags against `answer_original`. */
  method AugmentQaEmScores(qa: QaRecord) returns (r: Outcome)
    modifies qa`retrievedQaScore, qa`em, qa`emN
    ensures r == AugmentOutcome(qa.retrievedQas, qa.answer, qa.answerOriginal)
    ensures r.Pass? ==> qa.retrievedQas != [] && qa.retrievedQaScore == qa.retrievedQas[0].score
    ensures r.Pass? ==> qa.emN == old(qa.emN) + Flags(ExactMatchScoreNormalized, qa.retrievedQas, qa.answer, qa.question)
    ensures r.Pass? ==> qa.em == old(qa.em) + Flags(ExactMatchScore, qa.retrievedQas, qa.answerOriginal, qa.question)
  {
    r := AugmentWith(qa, ExactMatchScoreNormalized, qa.answer, ExactMatchScore, qa.answerOriginal);
  }

  /** A line of the augmented dataset, with the keys the script reads or passes on. */
  datatype Line = Line(question: string, answer: seq<string>, wikidataRelations: Relations, dbpediaRelations: Relations)

  /** A record as `jsonl_writer.write` writes it. */
  datatype Written = Written(id: Option<int>, question: string, answer: seq<string>, answerOriginal: seq<string>,
                             retrievedQas: seq<RetrievedQa>, retrievedQaScore: real,
                             em: map<nat, int>, emN: map<nat, int>,
                             wikidataRelations: Relations, dbpediaRelations: Relations)

  function WrittenOf(qa: QaRecord): Written
    reads qa
  {
    Written(qa.id, qa.question, qa.answer, qa.answerOriginal, qa.retrievedQas, qa.retrievedQaScore,
            qa.em, qa.emN, qa.wikidataRelations, qa.dbpediaRelations)
  }

  /** The record written for the line at position i, given its original answers and its
      (non-empty) retrieval list. A dataset line carries no flags of its own, so the
      flags are exactly the ones the scoring sets. */
  function Scored(normMetric: (string, string, string) -> bool, exactMetric: (string, string, string) -> bool,
                  line: Line, original: seq<string>, retrieved: seq<RetrievedQa>, i: nat): Written
    requires retrieved != []
  {
    Written(Some(i + 1), line.question, line.answer, original, retrieved, retrieved[0].score,
            Flags(exactMetric, retrieved, original, line.question),
            Flags(normMetric, retrieved, line.answer, line.question),
            line.wikidataRelations, line.dbpediaRelations)
  }

  /** The exception that ends the loop over positions i..n-1, if one does. */
  function FirstFailure(lines: seq<Line>, originals: seq<seq<string>>, results: seq<seq<RetrievedQa>>, i: nat, n: nat): Outcome
    requires n <= |lines| && n <= |originals| && n <= |results|
    decreases n - i
  {
    if i >= n then Pass
    else if AugmentOutcome(results[i], lines[i].answer, originals[i]).Fail? then AugmentOutcome(results[i], lines[i].answer, originals[i])
    else FirstFailure(lines, originals, results, i + 1, n)
  }

  /** One pass of the loop of `evaluate`: the augmented line becomes a fresh record that
      receives its original answers, its position-based id and its retrieval list, and is
      scored. */
  method ScoreLine(normMetric: (string, string, string) -> bool, exactMetric: (string, string, string) -> bool,
                   line: Line, original: seq<string>, retrieved: seq<RetrievedQa>, i: nat)
    returns (row: Written, r: Outcome)
    ensures r == AugmentOutcome(retrieved, line.answer, original)
    ensures r.Pass? ==> retrieved != [] && row == Scored(normMetric, exactMetric, line, original, retrieved, i)
  {
    var qa := new QaRecord(line.question, line.answer, line.wikidataRelations, line.dbpediaRelations);
    qa.answerOriginal := original;
    qa.id := Some(i + 1);
    qa.retrievedQas := retrieved;
    r := AugmentWith(qa, normMetric, qa.answer, exactMetric, qa.answerOriginal);
    row := WrittenOf(qa);
    if r.Pass? {
      WrittenIsScored(normMetric, exactMetric, qa, line, original, retrieved, i);
    }
  }

  /** A record holding what `ScoreLine` puts into it is written as `Scored` says. */
  lemma WrittenIsScored(normMetric: (string, string, string) -> bool, exactMetric: (string, string, string) -> bool,
                        qa: QaRecord, line: Line, original: seq<string>, retrieved: seq<RetrievedQa>, i: nat)
    requires qa.id == Some(i + 1) && qa.question == line.question && qa.answer == line.answer
    requires qa.answerOriginal == original && qa.retrievedQas == retrieved
    requires qa.wikidataRelations == line.wikidataRelations && qa.dbpediaRelations == line.dbpediaRelations
    requires retrieved != [] && qa.retrievedQaScore == retrieved[0].score
    requires qa.em == map[] + Flags(exactMetric, retrieved, original, line.question)
    requires qa.emN == map[] + Flags(normMetric, retrieved, line.answer, line.question)
    ensures WrittenOf(qa) == Scored(normMetric, exactMetric, line, original, retrieved, i)
  {
    assert qa.em == Flags(exactMetric, retrieved, original, line.question);
    assert qa.emN == Flags(normMetric, retrieved, line.answer, line.question);
  }

  /** The loop of `evaluate` over the three readers zipped together, with the metrics as
      parameters: it returns the records written and how the loop ended. The records
      before the failing line are written; the failing one is not. */
  method EvaluateWith(normMetric: (string, string, string) -> bool, exactMetric: (string, string, string) -> bool,
                      lines: seq<Line>, originals: seq<seq<string>>, results: seq<seq<RetrievedQa>>)
    returns (written: seq<Written>, r: Outcome)
    ensures var n := Min3(|lines|, |originals|, |results|);
      && r == FirstFailure(lines, originals, results, 0, n)
      && |written| <= n
      && (r.Pass? ==> |written| == n)
      && (r.Fail? ==> |written| < n && r == AugmentOutcome(results[|written|], lines[|written|].answer, originals[|written|]))
      && (forall j :: 0 <= j < |written| ==>
            results[j] != [] && written[j] == Scored(normMetric, exactMetric, lines[j], originals[j], results[j], j))
  {
    var n := Min3(|lines|, |originals|, |results|);
    written := [];
    for i := 0 to n
      invariant |written| == i
      invariant forall j :: 0 <= j < i ==>
        results[j] != [] && written[j] == Scored(normMetric, exactMetric, lines[j], originals[j], results[j], j)
      invariant FirstFailure(lines, originals, results, 0, n) == FirstFailure(lines, originals, results, i, n)
    {
      var row, outcome := ScoreLine(normMetric, exactMetric, lines[i], originals[i], results[i], i);
      if outcome.Fail? {
        return written, outcome;
      }
      written := written + [row];
    }
    r := Pass;
  }

  /** `evaluate` of the baseline script, on the contents of its three input files. */
  method Evaluate(lines: seq<Line>, originals: seq<seq<string>>, results: seq<seq<RetrievedQa>>)
    returns (written: seq<Written>, r: Outcome)
    ensures var n := Min3(|lines|, |originals|, |results|);
      && r == FirstFailure(lines, originals, results, 0, n)
      && (r.Pass? ==> |written| == n)
      && (r.Fail? ==> |written| < n && r == AugmentOutcome(results[|written|], lines[|written|].answer, originals[|written|]))
      && (forall j :: 0 <= j < |written| ==>
            results[j] != [] && written[j] == Scored(ExactMatchScoreNormalized, ExactMatchScore, lines[j], originals[j], results[j], j))
  {
    written, r := EvaluateWith(ExactMatchScoreNormalized, ExactMatchScore, lines, originals, results);
  }

  /** The loop fails exactly when some line's scoring fails, and then with that line's
      exception: the first such line. */
  lemma {:induction false} FirstFailureMeaning(lines: seq<Line>, originals: seq<seq<string>>, results: seq<seq<RetrievedQa>>, i: nat, n: nat)
    requires n <= |lines| && n <= |originals| && n <= |results|
    ensures FirstFailure(lines, originals, results, i, n).Pass? <==>
      forall j :: i <= j < n ==> AugmentOutcome(results[j], lines[j].answer, originals[j]).Pass?
    ensures FirstFailure(lines, originals, results, i, n).Fail? ==>
      exists j :: i <= j < n && AugmentOutcome(results[j], lines[j].answer, originals[j]) == FirstFailure(lines, originals, results, i, n)
    decreases n - i
  {
    if i < n {
      FirstFailureMeaning(lines, originals, results, i + 1, n);
    }
  }

  /** What a written record holds: the id i + 1, the first retrieved score, and at every
      cut-off k a 0/1 flag that is 1 exactly when one of the first k retrieved answers
      matches, the exact flag against the original answers and the normalised flag
      against the augmented ones; both flag rows grow with k. */
  lemma ScoredShape(normMetric: (string, string, string) -> bool, exactMetric: (string, string, string) -> bool,
                    line: Line, original: seq<string>, retrieved: seq<RetrievedQa>, i: nat)
    requires retrieved != []
    ensures var w := Scored(normMetric, exactMetric, line, original, retrieved, i);
      && w.id == Some(i + 1) && w.question == line.question
      && w.answer == line.answer && w.answerOriginal == original
      && w.retrievedQaScore == retrieved[0].score
      && FlagRow(w.em) && FlagRow(w.emN)
      && w.em.Keys == {1, 5, 10, 50} && w.emN.Keys == {1, 5, 10, 50}
      && (forall k :: k in w.em ==> (w.em[k] == 1 <==> Hit(exactMetric, retrieved, k, original, line.question)))
      && (forall k :: k in w.emN ==> (w.emN[k] == 1 <==> Hit(normMetric, retrieved, k, line.answer, line.question)))
  {
    ScoredRow(exactMetric, retrieved, original, line.question, map[]);
    ScoredRow(normMetric, retrieved, line.answer, line.question, map[]);
    FlagsMeaning(exactMetric, retrieved, original, line.question);
    FlagsMeaning(normMetric, retrieved, line.answer, line.question);
    assert map[] + Flags(exactMetric, retrieved, original, line.question) == Flags(exactMetric, retrieved, original, line.question);
    assert map[] + Flags(normMetric, retrieved, line.answer, line.question) == Flags(normMetric, retrieved, line.answer, line.question);
  }

  /** When every original answer is among the augmented ones, a written record's exact
      flag never exceeds its normalised flag. */
  lemma ScoredExactBelowNormalized(line: Line, original: seq<string>, retrieved: seq<RetrievedQa>, i: nat)
    requires retrieved != []
    requires forall g :: g in original ==> g in line.answer
    ensures var w := Scored(ExactMatchScoreNormalized, ExactMatchScore, line, original, retrieved, i);
      forall k :: k in Cutoffs ==> k in w.em && k in w.emN && w.em[k] <= w.emN[k]
  {
    FlagsMeaning(ExactMatchScore, retrieved, original, line.question);
    FlagsMeaning(ExactMatchScoreNormalized, retrieved, line.answer, line.question);
    ExactFlagsBelowNormalized(retrieved, original, line.answer, line.question);
  }
}
