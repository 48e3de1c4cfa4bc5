/**
 * `evaluation/experiment_evaluation.py`: scoring the records of one experiment, the
 * split of the augmented answers into originals and aliases, the dataset-level EM@k
 * percentages and the hit / miss / mistake lists against the baseline.
 */
module ExperimentEvaluation {
  import opened Wrappers
  import opened Normalize
  import opened Equivalence
  import opened Records
  import opened Retrieval

  // ---------------------------------------------------------------------------------
  // augment_qa_em_scores
  // ---------------------------------------------------------------------------------

  /** `augment_qa_em_scores(qa)`: the normalised flags against the answers and their
      aliases, the exact flags against the answers alone. */
  method AugmentQaEmScores(qa: QaRecord) returns (r: Outcome)
    modifies qa`retrievedQaScore, qa`em, qa`emN
    ensures r == AugmentOutcome(qa.retrievedQas, qa.answer + qa.answerAlias, qa.answer)
    ensures r.Pass? ==> qa.retrievedQas != [] && qa.retrievedQaScore == qa.retrievedQas[0].score
    ensures r.Pass? ==> qa.emN == old(qa.emN) + Flags(ExactMatchScoreNormalized, qa.retrievedQas, qa.answer + qa.answerAlias, qa.question)
    ensures r.Pass? ==> qa.em == old(qa.em) + Flags(ExactMatchScore, qa.retrievedQas, qa.answer, qa.question)
  {
    r := AugmentWith(qa, ExactMatchScoreNormalized, qa.answer + qa.answerAlias, ExactMatchScore, qa.answer);
  }

  /** The exact flags of a record never exceed its normalised flags: `em_k = 1` implies
      `em_n_k = 1`. */
  lemma ExactBelowNormalized(retrieved: seq<RetrievedQa>, answer: seq<string>, alias: seq<string>, question: string)
    ensures forall k :: k in Cutoffs ==>
      Flags(ExactMatchScore, retrieved, answer, question)[k]
      <= Flags(ExactMatchScoreNormalized, retrieved, answer + alias, question)[k]
  {
    ExactFlagsBelowNormalized(retrieved, answer, answer + alias, question);
  }

  // ---------------------------------------------------------------------------------
  // get_qas_em
  // ---------------------------------------------------------------------------------

  /** `list(set(all) - set(originals))`, listed in order of first appearance. */
  function Difference(all: seq<string>, originals: seq<string>): seq<string>
    decreases |all|
  {
    if all == [] then []
    else
      var rest := Difference(all[1..], originals + [all[0]]);
      if all[0] in originals then rest else [all[0]] + rest
  }

  lemma {:induction false} DifferenceMembers(all: seq<string>, originals: seq<string>)
    ensures var r := Difference(all, originals);
      && (forall x :: x in r <==> x in all && x !in originals)
      && (forall i, j :: 0 <= i < j < |r| ==> r[i] != r[j])
    decreases |all|
  {
    if all != [] {
      var rest := Difference(all[1..], originals + [all[0]]);
      DifferenceMembers(all[1..], originals + [all[0]]);
      assert all == [all[0]] + all[1..];
      assert all[0] !in rest;
    }
  }

  /** The fields of a record that `get_qas_em` reads before it rewrites them. */
  datatype Before = Before(question: string, answer: seq<string>, em: map<nat, int>, emN: map<nat, int>)

  function Snapshot(qas: seq<QaRecord>): (r: seq<Before>)
    reads set qa | qa in qas
    ensures |r| == |qas| && forall i :: 0 <= i < |qas| ==> r[i] == Before(qas[i].question, qas[i].answer, qas[i].em, qas[i].emN)
  {
    seq(|qas|, i requires 0 <= i < |qas| reads set qa | qa in qas => Before(qas[i].question, qas[i].answer, qas[i].em, qas[i].emN))
  }

  function AnswersOf(snapshot: seq<Before>): (r: seq<seq<string>>)
    ensures |r| == |snapshot| && forall i :: 0 <= i < |snapshot| ==> r[i] == snapshot[i].answer
  {
    seq(|snapshot|, i requires 0 <= i < |snapshot| => snapshot[i].answer)
  }

  /** The record still holds what it held before. */
  ghost predicate Untouched(qa: QaRecord, before: Before)
    reads qa
  {
    qa.question == before.question && qa.answer == before.answer && qa.em == before.em && qa.emN == before.emN
  }

  /** The fields of a record that `get_qas_em` writes. */
  datatype After = After(answer: seq<string>, answerAlias: seq<string>, retrievedQas: seq<RetrievedQa>,
                         retrievedQaScore: real, em: map<nat, int>, emN: map<nat, int>)

  function Current(qa: QaRecord): After
    reads qa
  {
    After(qa.answer, qa.answerAlias, qa.retrievedQas, qa.retrievedQaScore, qa.em, qa.emN)
  }

  /** What `get_qas_em` leaves in a record, given what it held before, its question, its
      original answers and its (non-empty) retrieval list: the original answers, the
      augmented answers that are not among them as aliases, the first retrieved score and
      the flags of the scoring step, under the normalised metric against answers and
      aliases and under the exact metric against the answers alone. */
  function Expected(normMetric: (string, string, string) -> bool, exactMetric: (string, string, string) -> bool,
                    before: Before, original: seq<string>, retrieved: seq<RetrievedQa>): After
    requires retrieved != []
  {
    var alias := Difference(before.answer, original);
    After(original, alias, retrieved, retrieved[0].score,
          before.em + Flags(exactMetric, retrieved, original, before.question),
          before.emN + Flags(normMetric, retrieved, original + alias, before.question))
  }

  /** A loaded record holds the original answers, the retrieval list and its first
      score; its aliases are the augmented answers that are not original ones; its flag
      maps gain exactly the four cut-offs. */
  lemma ExpectedShape(normMetric: (string, string, string) -> bool, exactMetric: (string, string, string) -> bool,
                      before: Before, original: seq<string>, retrieved: seq<RetrievedQa>)
    requires retrieved != []
    ensures var r := Expected(normMetric, exactMetric, before, original, retrieved);
      && r.answer == original && r.retrievedQas == retrieved && r.retrievedQaScore == retrieved[0].score
      && (forall x :: x in r.answerAlias <==> x in before.answer && x !in original)
      && r.em.Keys == before.em.Keys + {1, 5, 10, 50} && r.emN.Keys == before.emN.Keys + {1, 5, 10, 50}
  {
    DifferenceMembers(before.answer, original);
    FlagsMeaning(exactMetric, retrieved, original, before.question);
    FlagsMeaning(normMetric, retrieved, original + Difference(before.answer, original), before.question);
  }

  /** In every record `get_qas_em` loads, `em_k = 1` implies `em_n_k = 1`. */
  lemma LoadedExactBelowNormalized(before: Before, original: seq<string>, retrieved: seq<RetrievedQa>)
    requires retrieved != []
    ensures var r := Expected(ExactMatchScoreNormalized, ExactMatchScore, before, original, retrieved);
      forall k :: k in Cutoffs ==> r.em[k] <= r.emN[k]
  {
    ExactBelowNormalized(retrieved, original, Difference(before.answer, original), before.question);
  }

  /** How the loop of `get_qas_em` ends from record i on: the first record whose scoring fails. */
  function LoadOutcome(answers: seq<seq<string>>, originals: seq<seq<string>>, results: seq<seq<RetrievedQa>>, i: nat, n: nat): Outcome
    requires i <= n <= |answers| && n <= |originals| && n <= |results|
    decreases n - i
  {
    if i == n then Pass
    else match AugmentOutcome(results[i], originals[i] + Difference(answers[i], originals[i]), originals[i])
      case Fail(e) => Fail(e)
      case Pass => LoadOutcome(answers, originals, results, i + 1, n)
  }

  lemma LoadStep(answers: seq<seq<string>>, originals: seq<seq<string>>, results: seq<seq<RetrievedQa>>, i: nat, n: nat)
    requires i < n <= |answers| && n <= |originals| && n <= |results|
    ensures var o := AugmentOutcome(results[i], originals[i] + Difference(answers[i], originals[i]), originals[i]);
      LoadOutcome(answers, originals, results, i, n) == if o.Pass? then LoadOutcome(answers, originals, results, i + 1, n) else o
  {
  }

  function Min3(a: nat, b: nat, c: nat): nat {
    Min(a, Min(b, c))
  }

  /** The body of the loop of `get_qas_em` for one record. */
  method LoadRecord(normMetric: (string, string, string) -> bool, exactMetric: (string, string, string) -> bool,
                    qa: QaRecord, original: seq<string>, retrieved: seq<RetrievedQa>, ghost before: Before)
    returns (r: Outcome)
    requires Untouched(qa, before)
    modifies qa`answerAlias, qa`answer, qa`retrievedQas, qa`retrievedQaScore, qa`em, qa`emN
    ensures r == AugmentOutcome(retrieved, original + Difference(before.answer, original), original)
    ensures r.Pass? ==> retrieved != [] && Current(qa) == Expected(normMetric, exactMetric, before, original, retrieved)
  {
    var alias := Difference(qa.answer, original);
    qa.answerAlias := alias;
    qa.answer := original;
    qa.retrievedQas := retrieved;
    r := AugmentWith(qa, normMetric, original + alias, exactMetric, original);
    if r.Pass? {
      ScoredIsExpected(normMetric, exactMetric, qa, before, original, retrieved);
    }
  }

  /** The fields the scoring step leaves, read back as `Expected`. */
  lemma ScoredIsExpected(normMetric: (string, string, string) -> bool, exactMetric: (string, string, string) -> bool,
                         qa: QaRecord, before: Before, original: seq<string>, retrieved: seq<RetrievedQa>)
    requires qa.question == before.question
    requires qa.answer == original
    requires qa.answerAlias == Difference(before.answer, original)
    requires qa.retrievedQas == retrieved
    requires |retrieved| > 0
    requires qa.retrievedQaScore == retrieved[0].score
    requires qa.emN == before.emN + Flags(normMetric, retrieved, original + qa.answerAlias, before.question)
    requires qa.em == before.em + Flags(exactMetric, retrieved, original, before.question)
    ensures Current(qa) == Expected(normMetric, exactMetric, before, original, retrieved)
  {
  }

  /** The first n of `after` are what `get_qas_em` leaves in the first n records. */
  ghost predicate LoadedUpTo(normMetric: (string, string, string) -> bool, exactMetric: (string, string, string) -> bool, after: seq<After>, before: seq<Before>,
                             originals: seq<seq<string>>, results: seq<seq<RetrievedQa>>, n: nat)
    requires n <= |after| && n <= |before| && n <= |originals| && n <= |results|
  {
    n > 0 ==>
      && LoadedUpTo(normMetric, exactMetric, after, before, originals, results, n - 1)
      && results[n - 1] != []
      && after[n - 1] == Expected(normMetric, exactMetric, before[n - 1], originals[n - 1], results[n - 1])
  }

  lemma {:induction false} LoadedDown(normMetric: (string, string, string) -> bool, exactMetric: (string, string, string) -> bool, after: seq<After>, before: seq<Before>,
                                      originals: seq<seq<string>>, results: seq<seq<RetrievedQa>>, n: nat, m: nat)
    requires m <= n <= |after| && n <= |before| && n <= |originals| && n <= |results|
    requires LoadedUpTo(normMetric, exactMetric, after, before, originals, results, n)
    ensures LoadedUpTo(normMetric, exactMetric, after, before, originals, results, m)
    decreases n
  {
    if m < n {
      LoadedDown(normMetric, exactMetric, after, before, originals, results, n - 1, m);
    } else {
      assert m == n;
    }
  }

  lemma LoadedAt(normMetric: (string, string, string) -> bool, exactMetric: (string, string, string) -> bool, after: seq<After>, before: seq<Before>,
                 originals: seq<seq<string>>, results: seq<seq<RetrievedQa>>, n: nat, j: nat)
    requires j < n <= |after| && n <= |before| && n <= |originals| && n <= |results|
    requires LoadedUpTo(normMetric, exactMetric, after, before, originals, results, n)
    ensures results[j] != [] && after[j] == Expected(normMetric, exactMetric, before[j], originals[j], results[j])
  {
    LoadedDown(normMetric, exactMetric, after, before, originals, results, n, j + 1);
    LoadedLast(normMetric, exactMetric, after, before, originals, results, j);
  }

  lemma LoadedLast(normMetric: (string, string, string) -> bool, exactMetric: (string, string, string) -> bool, after: seq<After>, before: seq<Before>,
                   originals: seq<seq<string>>, results: seq<seq<RetrievedQa>>, j: nat)
    requires j < |after| && j < |before| && j < |originals| && j < |results|
    requires LoadedUpTo(normMetric, exactMetric, after, before, originals, results, j + 1)
    ensures results[j] != [] && after[j] == Expected(normMetric, exactMetric, before[j], originals[j], results[j])
  {
  }

  lemma LoadedAll(normMetric: (string, string, string) -> bool, exactMetric: (string, string, string) -> bool, after: seq<After>, before: seq<Before>,
                  originals: seq<seq<string>>, results: seq<seq<RetrievedQa>>, n: nat)
    requires n <= |after| && n <= |before| && n <= |originals| && n <= |results|
    requires LoadedUpTo(normMetric, exactMetric, after, before, originals, results, n)
    ensures forall j :: 0 <= j < n ==> results[j] != [] && after[j] == Expected(normMetric, exactMetric, before[j], originals[j], results[j])
  {
    forall j | 0 <= j < n
      ensures results[j] != [] && after[j] == Expected(normMetric, exactMetric, before[j], originals[j], results[j])
    {
      LoadedAt(normMetric, exactMetric, after, before, originals, results, n, j);
    }
  }

  lemma {:induction false} LoadedPrefix(normMetric: (string, string, string) -> bool, exactMetric: (string, string, string) -> bool, after: seq<After>, longer: seq<After>, before: seq<Before>,
                                        originals: seq<seq<string>>, results: seq<seq<RetrievedQa>>, n: nat)
    requires n <= |after| <= |longer| && n <= |before| && n <= |originals| && n <= |results|
    requires after == longer[..|after|]
    requires LoadedUpTo(normMetric, exactMetric, after, before, originals, results, n)
    ensures LoadedUpTo(normMetric, exactMetric, longer, before, originals, results, n)
  {
    if n > 0 {
      LoadedPrefix(normMetric, exactMetric, after, longer, before, originals, results, n - 1);
    }
  }

  /** One pass of the loop of `get_qas_em`: record i is loaded, and the outcome and
      the loaded prefix move on by one. */
  method LoadNext(normMetric: (string, string, string) -> bool, exactMetric: (string, string, string) -> bool, qa: QaRecord,
                  ghost answers: seq<seq<string>>, originals: seq<seq<string>>, results: seq<seq<RetrievedQa>>,
                  ghost before: seq<Before>, ghost after: seq<After>, i: nat, ghost n: nat)
    returns (r: Outcome)
    requires i < n <= |answers| && n <= |before| && n <= |originals| && n <= |results| && |after| == i
    requires Untouched(qa, before[i]) && answers[i] == before[i].answer
    requires LoadedUpTo(normMetric, exactMetric, after, before, originals, results, i)
    modifies qa`answerAlias, qa`answer, qa`retrievedQas, qa`retrievedQaScore, qa`em, qa`emN
    ensures LoadOutcome(answers, originals, results, i, n) == if r.Pass? then LoadOutcome(answers, originals, results, i + 1, n) else r
    ensures r.Pass? ==> LoadedUpTo(normMetric, exactMetric, after + [Current(qa)], before, originals, results, i + 1)
  {
    r := LoadRecord(normMetric, exactMetric, qa, originals[i], results[i], before[i]);
    LoadStep(answers, originals, results, i, n);
    if r.Pass? {
      LoadedPrefix(normMetric, exactMetric, after, after + [Current(qa)], before, originals, results, i);
    }
  }

  /** The state of the loop of `get_qas_em` after i records: they are collected, hold
      what `after` says, and the records from i on are untouched. */
  ghost predicate Progress(augmented: seq<QaRecord>, before: seq<Before>, qas: seq<QaRecord>, after: seq<After>, i: nat)
    reads set qa | qa in augmented
  {
    && i <= |augmented| == |before| && |qas| == i && |after| == i
    && (forall j :: 0 <= j < i ==> qas[j] == augmented[j] && Current(augmented[j]) == after[j])
    && (forall j :: i <= j < |augmented| ==> Untouched(augmented[j], before[j]))
  }

  /** One pass of the loop of `get_qas_em`, heap included. */
  method Advance(normMetric: (string, string, string) -> bool, exactMetric: (string, string, string) -> bool,
                 qa: QaRecord, augmented: seq<QaRecord>, originals: seq<seq<string>>, results: seq<seq<RetrievedQa>>,
                 qas: seq<QaRecord>, ghost after: seq<After>, ghost before: seq<Before>, ghost answers: seq<seq<string>>,
                 i: nat, ghost n: nat)
    returns (qas': seq<QaRecord>, ghost after': seq<After>, r: Outcome)
    requires forall i, j :: 0 <= i < j < |augmented| ==> augmented[i] != augmented[j]
    requires i < n <= |augmented| && n <= |originals| && n <= |results| && |answers| == |before| && qa == augmented[i]
    requires forall j :: 0 <= j < |before| ==> answers[j] == before[j].answer
    requires Progress(augmented, before, qas, after, i)
    requires LoadedUpTo(normMetric, exactMetric, after, before, originals, results, i)
    modifies qa`answerAlias, qa`answer, qa`retrievedQas, qa`retrievedQaScore, qa`em, qa`emN
    ensures LoadOutcome(answers, originals, results, i, n) == if r.Pass? then LoadOutcome(answers, originals, results, i + 1, n) else r
    ensures r.Pass? ==> Progress(augmented, before, qas', after', i + 1)
    ensures r.Pass? ==> LoadedUpTo(normMetric, exactMetric, after', before, originals, results, i + 1)
  {
    r := LoadNext(normMetric, exactMetric, qa, answers, originals, results, before, after, i, n);
    qas' := qas + [qa];
    after' := after + [Current(qa)];
    assert forall j :: 0 <= j < |augmented| && j != i ==> augmented[j] != qa;
    ProgressStep(LoopState(augmented, before, qas, after, i));
  }

  /** The loop variables `ProgressStep` is about (one parameter, allocated before the step). */
  datatype LoopState = LoopState(augmented: seq<QaRecord>, before: seq<Before>, qas: seq<QaRecord>, after: seq<After>, i: nat)

  /** Loading record i, and nothing else, moves the loop state on by one. */
  twostate lemma ProgressStep(s: LoopState)
    requires old(Progress(s.augmented, s.before, s.qas, s.after, s.i)) && s.i < |s.augmented|
    requires forall j :: 0 <= j < |s.augmented| && j != s.i ==> unchanged(s.augmented[j])
    ensures Progress(s.augmented, s.before, s.qas + [s.augmented[s.i]], s.after + [Current(s.augmented[s.i])], s.i + 1)
  {
    forall j | 0 <= j < s.i
      ensures Current(s.augmented[j]) == old(Current(s.augmented[j]))
    {
      assert unchanged(s.augmented[j]);
    }
    forall j | s.i + 1 <= j < |s.augmented|
      ensures Untouched(s.augmented[j], s.before[j])
    {
      assert unchanged(s.augmented[j]);
    }
  }

  /** The loop of `get_qas_em` under given metrics. */
  method LoadAll(normMetric: (string, string, string) -> bool, exactMetric: (string, string, string) -> bool,
                 augmented: seq<QaRecord>, originals: seq<seq<string>>, results: seq<seq<RetrievedQa>>)
    returns (qas: seq<QaRecord>, r: Outcome)
    requires forall i, j :: 0 <= i < j < |augmented| ==> augmented[i] != augmented[j]
    modifies set qa | qa in augmented
    ensures r == LoadOutcome(AnswersOf(old(Snapshot(augmented))), originals, results, 0, Min3(|augmented|, |originals|, |results|))
    ensures r.Pass? ==> |qas| == Min3(|augmented|, |originals|, |results|)
    ensures r.Pass? ==> forall i :: 0 <= i < |qas| ==> qas[i] == augmented[i] && results[i] != []
    ensures r.Pass? ==> forall i :: 0 <= i < |qas| ==>
      Current(qas[i]) == Expected(normMetric, exactMetric, old(Snapshot(augmented))[i], originals[i], results[i])
  {
    var n := Min3(|augmented|, |originals|, |results|);
    ghost var before := Snapshot(augmented);
    ghost var answers := AnswersOf(before);
    ghost var after: seq<After> := [];
    qas := [];
    for i := 0 to n
      invariant Progress(augmented, before, qas, after, i)
      invariant LoadedUpTo(normMetric, exactMetric, after, before, originals, results, i)
      invariant LoadOutcome(answers, originals, results, 0, n) == LoadOutcome(answers, originals, results, i, n)
    {
      var outcome;
      qas, after, outcome := Advance(normMetric, exactMetric, augmented[i], augmented, originals, results, qas, after, before, answers, i, n);
      if outcome.Fail? {
        return qas, outcome;
      }
    }
    r := Pass;
    LoadedAll(normMetric, exactMetric, after, before, originals, results, n);
  }

  /** `get_qas_em`: the augmented records zipped with the original answers and the
      retrieval results; each record gets its aliases, its original answers and its
      retrieval list, is scored by `augment_qa_em_scores` and collected. */
  method GetQasEm(augmented: seq<QaRecord>, originals: seq<seq<string>>, results: seq<seq<RetrievedQa>>)
    returns (qas: seq<QaRecord>, r: Outcome)
    requires forall i, j :: 0 <= i < j < |augmented| ==> augmented[i] != augmented[j]
    modifies set qa | qa in augmented
    ensures r == LoadOutcome(AnswersOf(old(Snapshot(augmented))), originals, results, 0, Min3(|augmented|, |originals|, |results|))
    ensures r.Pass? ==> |qas| == Min3(|augmented|, |originals|, |results|)
    ensures r.Pass? ==> forall i :: 0 <= i < |qas| ==> qas[i] == augmented[i] && results[i] != []
    ensures r.Pass? ==> forall i :: 0 <= i < |qas| ==>
      Current(qas[i]) == Expected(ExactMatchScoreNormalized, ExactMatchScore, old(Snapshot(augmented))[i], originals[i], results[i])
  {
    qas, r := LoadAll(ExactMatchScoreNormalized, ExactMatchScore, augmented, originals, results);
  }

  // ---------------------------------------------------------------------------------
  // evaluate
  // ---------------------------------------------------------------------------------

  /** The summary `evaluate` builds: the relation's name and the EM@k and normalised
      EM@k percentages, keyed by the cut-off (exact reals, not yet formatted). */
  datatype Evaluation = Evaluation(name: string, em: map<nat, real>, emN: map<nat, real>)

  /** One flag map per record: `em_k` (`normalized` false) or `em_n_k` (true). */
  function Rows(qas: seq<QaRecord>, normalized: bool): (r: seq<map<nat, int>>)
    reads set qa | qa in qas
    ensures |r| == |qas|
    ensures forall i :: 0 <= i < |qas| ==> r[i] == if normalized then qas[i].emN else qas[i].em
  {
    seq(|qas|, i reads set qa | qa in qas => if 0 <= i < |qas| then (if normalized then qas[i].emN else qas[i].em) else map[])
  }

  /** The first n rows all have a value for cut-off k. */
  predicate HasKey(rows: seq<map<nat, int>>, k: nat, n: nat) {
    n <= |rows| && forall i :: 0 <= i < n ==> k in rows[i]
  }

  /** `sum([row[k] for row in rows[:n]])`. */
  function Total(rows: seq<map<nat, int>>, k: nat, n: nat): int
    requires HasKey(rows, k, n)
  {
    if n == 0 then 0 else Total(rows, k, n - 1) + rows[n - 1][k]
  }

  /** `sum([row[k] for row in rows]) / len(rows) * 100`: the list is built first, so a
      record without the key raises `KeyError`; an empty list then divides by zero. */
  function Rate(rows: seq<map<nat, int>>, k: nat): Result<real> {
    if !HasKey(rows, k, |rows|) then Err(KeyError)
    else if rows == [] then Err(ZeroDivisionError)
    else Ok(Total(rows, k, |rows|) as real / |rows| as real * 100.0)
  }

  /** The cut-offs `ks` in order, each entered with its rate; the first failing one
      ends the loop with its exception. */
  function Rates(rows: seq<map<nat, int>>, ks: seq<nat>): Result<map<nat, real>> {
    if ks == [] then Ok(map[])
    else
      match Rates(rows, ks[..|ks| - 1])
      case Err(e) => Err(e)
      case Ok(m) =>
        match Rate(rows, ks[|ks| - 1])
        case Err(e) => Err(e)
        case Ok(v) => Ok(m[ks[|ks| - 1] := v])
  }

  /** A failure among the first n cut-offs fails the whole loop with it. */
  lemma {:induction false} RatesFailure(rows: seq<map<nat, int>>, ks: seq<nat>, n: nat)
    requires n <= |ks| && Rates(rows, ks[..n]).Err?
    ensures Rates(rows, ks) == Rates(rows, ks[..n])
    decreases |ks| - n
  {
    if n == |ks| {
      assert ks[..n] == ks;
    } else {
      assert ks[..n + 1][..n] == ks[..n];
      RatesFailure(rows, ks, n + 1);
    }
  }

  /** The `em_k` loop, then the `em_n_k` loop, over all four cut-offs. */
  function EvaluationOf(name: string, emRows: seq<map<nat, int>>, emNRows: seq<map<nat, int>>): Result<Evaluation> {
    match Rates(emRows, Cutoffs)
    case Err(e) => Err(e)
    case Ok(em) =>
      match Rates(emNRows, Cutoffs)
      case Err(e) => Err(e)
      case Ok(emN) => Ok(Evaluation(name, em, emN))
  }

  /** One percentage: the comprehension over the records, then the division. */
  method Percentage(qas: seq<QaRecord>, normalized: bool, k: nat) returns (r: Result<real>)
    ensures r == Rate(Rows(qas, normalized), k)
  {
    ghost var rows := Rows(qas, normalized);
    var total := 0;
    for i := 0 to |qas|
      invariant HasKey(rows, k, i)
      invariant total == Total(rows, k, i)
    {
      var flags := if normalized then qas[i].emN else qas[i].em;
      if k !in flags {
        assert !HasKey(rows, k, |rows|);
        return Err(KeyError);
      }
      total := total + flags[k];
    }
    if |qas| == 0 {
      return Err(ZeroDivisionError);
    }
    r := Ok(total as real / |qas| as real * 100.0);
  }

  /** One of the two loops of `evaluate`: the percentage of every cut-off, in order. */
  method Percentages(qas: seq<QaRecord>, normalized: bool) returns (r: Result<map<nat, real>>)
    ensures r == Rates(Rows(qas, normalized), Cutoffs)
  {
    var scores := map[];
    for t := 0 to |Cutoffs|
      invariant Rates(Rows(qas, normalized), Cutoffs[..t]) == Ok(scores)
    {
      assert Cutoffs[..t + 1][..t] == Cutoffs[..t];
      var rate := Percentage(qas, normalized, Cutoffs[t]);
      if rate.Err? {
        RatesFailure(Rows(qas, normalized), Cutoffs, t + 1);
        return Err(rate.error);
      }
      scores := scores[Cutoffs[t] := rate.value];
    }
    assert Cutoffs[..|Cutoffs|] == Cutoffs;
    r := Ok(scores);
  }

  /** `evaluate` on the records `get_qas_em` returned. */
  method Evaluate(name: string, qas: seq<QaRecord>) returns (r: Result<Evaluation>)
    ensures r == EvaluationOf(name, Rows(qas, false), Rows(qas, true))
  {
    var em := Percentages(qas, false);
    if em.Err? {
      return Err(em.error);
    }
    var emN := Percentages(qas, true);
    if emN.Err? {
      return Err(emN.error);
    }
    r := Ok(Evaluation(name, em.value, emN.value));
  }

  // ---------------------------------------------------------------------------------
  // what `evaluate` reports
  // ---------------------------------------------------------------------------------

  /** A flag map as the scoring step leaves it: all four cut-offs, each flag 0 or 1, and
      `em_1 <= em_5 <= em_10 <= em_50`. */
  predicate FlagRow(row: map<nat, int>) {
    && (forall k :: k in Cutoffs ==> k in row && (row[k] == 0 || row[k] == 1))
    && 1 in row && 5 in row && 10 in row && 50 in row
    && row[1] <= row[5] <= row[10] <= row[50]
  }

  predicate FlagRows(rows: seq<map<nat, int>>) {
    forall i :: 0 <= i < |rows| ==> FlagRow(rows[i])
  }

  /** Every row has a 0/1 value for cut-off k. */
  predicate Binary(rows: seq<map<nat, int>>, k: nat) {
    forall i :: 0 <= i < |rows| ==> k in rows[i] && (rows[i][k] == 0 || rows[i][k] == 1)
  }

  /** The records with flag k set among the first n. */
  function Flagged(rows: seq<map<nat, int>>, k: nat, n: nat): set<nat>
    requires n <= |rows|
  {
    set i | 0 <= i < n && k in rows[i] && rows[i][k] == 1
  }

  /** Both flag maps of a loaded record are flag rows. */
  lemma ExpectedRows(normMetric: (string, string, string) -> bool, exactMetric: (string, string, string) -> bool,
                     before: Before, original: seq<string>, retrieved: seq<RetrievedQa>)
    requires retrieved != []
    ensures var r := Expected(normMetric, exactMetric, before, original, retrieved);
      FlagRow(r.em) && FlagRow(r.emN)
  {
    ScoredRow(exactMetric, retrieved, original, before.question, before.em);
    ScoredRow(normMetric, retrieved, original + Difference(before.answer, original), before.question, before.emN);
  }

  /** Whatever a record held before, the scoring step leaves a flag row. */
  lemma ScoredRow(metric: (string, string, string) -> bool, retrieved: seq<RetrievedQa>,
                  groundTruths: seq<string>, question: string, prior: map<nat, int>)
    ensures FlagRow(prior + Flags(metric, retrieved, groundTruths, question))
  {
    FlagsMeaning(metric, retrieved, groundTruths, question);
    FlagsMonotone(metric, retrieved, groundTruths, question);
  }

  /** The records `get_qas_em` loaded give flag rows, each exact flag at most its
      normalised one: what `evaluate` then reads. */
  lemma LoadedRows(qas: seq<QaRecord>, before: seq<Before>, originals: seq<seq<string>>, results: seq<seq<RetrievedQa>>)
    requires |qas| <= |before| && |qas| <= |originals| && |qas| <= |results|
    requires forall i :: 0 <= i < |qas| ==>
      results[i] != [] && Current(qas[i]) == Expected(ExactMatchScoreNormalized, ExactMatchScore, before[i], originals[i], results[i])
    ensures FlagRows(Rows(qas, false)) && FlagRows(Rows(qas, true))
    ensures forall i, k :: 0 <= i < |qas| && k in Cutoffs ==>
      k in qas[i].em && k in qas[i].emN && qas[i].em[k] <= qas[i].emN[k]
  {
    forall i | 0 <= i < |qas|
      ensures FlagRow(qas[i].em) && FlagRow(qas[i].emN)
      ensures forall k :: k in Cutoffs ==> qas[i].em[k] <= qas[i].emN[k]
    {
      ExpectedRows(ExactMatchScoreNormalized, ExactMatchScore, before[i], originals[i], results[i]);
      LoadedExactBelowNormalized(before[i], originals[i], results[i]);
    }
  }

  /** With 0/1 flags, the sum is the number of flagged records. */
  lemma {:induction false} TotalCounts(rows: seq<map<nat, int>>, k: nat, n: nat)
    requires n <= |rows| && Binary(rows, k)
    ensures HasKey(rows, k, n) && Total(rows, k, n) == |Flagged(rows, k, n)|
    ensures 0 <= Total(rows, k, n) <= n
  {
    if n == 0 {
      assert Flagged(rows, k, n) == {};
    } else {
      TotalCounts(rows, k, n - 1);
      if rows[n - 1][k] == 1 {
        assert Flagged(rows, k, n) == Flagged(rows, k, n - 1) + {n - 1};
      } else {
        assert Flagged(rows, k, n) == Flagged(rows, k, n - 1);
      }
    }
  }

  /** Sums of pointwise smaller values are smaller: `rows[i][k] <= rows'[i][k']` for each record. */
  lemma {:induction false} TotalBelow(rows: seq<map<nat, int>>, k: nat, rows': seq<map<nat, int>>, k': nat, n: nat)
    requires HasKey(rows, k, n) && HasKey(rows', k', n)
    requires forall i :: 0 <= i < n ==> rows[i][k] <= rows'[i][k']
    ensures Total(rows, k, n) <= Total(rows', k', n)
  {
    if n > 0 {
      TotalBelow(rows, k, rows', k', n - 1);
    }
  }

  /** Division by a positive number keeps order. */
  lemma DivBelow(a: real, b: real, n: real)
    requires a <= b && n > 0.0
    ensures a / n <= b / n
  {
    var d := (b - a) / n;
    assert d * n == b - a;
    assert b / n == a / n + d;
  }

  /** `a / n * 100` grows with a and stays in [0, 100] for 0 <= a <= n. */
  lemma PercentBelow(a: int, b: int, n: int)
    requires 0 <= a <= b <= n && n > 0
    ensures 0.0 <= a as real / n as real * 100.0 <= b as real / n as real * 100.0 <= 100.0
  {
    DivBelow(0.0, a as real, n as real);
    DivBelow(a as real, b as real, n as real);
    DivBelow(b as real, n as real, n as real);
    assert n as real / n as real == 1.0;
  }

  /** On records with 0/1 flags, EM@k is 100 times the flagged records over all records. */
  lemma RateOfFlags(rows: seq<map<nat, int>>, k: nat)
    requires rows != [] && Binary(rows, k)
    ensures Rate(rows, k) == Ok(|Flagged(rows, k, |rows|)| as real / |rows| as real * 100.0)
    ensures 0.0 <= Rate(rows, k).value <= 100.0
  {
    TotalCounts(rows, k, |rows|);
    PercentBelow(Total(rows, k, |rows|), Total(rows, k, |rows|), |rows|);
  }

  /** Pointwise smaller flags give a smaller rate. */
  lemma RateBelow(rows: seq<map<nat, int>>, k: nat, rows': seq<map<nat, int>>, k': nat)
    requires rows != [] && |rows'| == |rows| && Binary(rows, k) && Binary(rows', k')
    requires forall i :: 0 <= i < |rows| ==> rows[i][k] <= rows'[i][k']
    ensures Rate(rows, k).Ok? && Rate(rows', k').Ok? && Rate(rows, k).value <= Rate(rows', k').value
  {
    var n := |rows|;
    TotalCounts(rows, k, n);
    TotalCounts(rows', k', n);
    TotalBelow(rows, k, rows', k', n);
    PercentBelow(Total(rows, k, n), Total(rows', k', n), n);
  }

  /** The loop over `ks` succeeds exactly when every cut-off's rate does, and then maps
      each cut-off to its rate and nothing else. */
  lemma {:induction false} RatesMeaning(rows: seq<map<nat, int>>, ks: seq<nat>)
    ensures Rates(rows, ks).Ok? <==> forall i :: 0 <= i < |ks| ==> Rate(rows, ks[i]).Ok?
    ensures Rates(rows, ks).Ok? ==>
      && (forall k :: k in Rates(rows, ks).value <==> k in ks)
      && (forall k :: k in ks ==> Rates(rows, ks).value[k] == Rate(rows, k).value)
    decreases |ks|
  {
    if ks != [] {
      var init := ks[..|ks| - 1];
      RatesMeaning(rows, init);
      assert ks == init + [ks[|ks| - 1]];
      assert forall i :: 0 <= i < |init| ==> init[i] == ks[i];
    }
  }

  /** The four percentages of flag rows: all four cut-offs, each in [0, 100], each the
      flagged share of the records, non-decreasing in k. */
  lemma RatesOfFlags(rows: seq<map<nat, int>>)
    requires rows != [] && FlagRows(rows)
    ensures Rates(rows, Cutoffs).Ok?
    ensures var m := Rates(rows, Cutoffs).value;
      && (forall k :: k in m <==> k in Cutoffs)
      && (forall k :: k in Cutoffs ==> m[k] == |Flagged(rows, k, |rows|)| as real / |rows| as real * 100.0)
      && (forall k :: k in Cutoffs ==> 0.0 <= m[k] <= 100.0)
      && m[1] <= m[5] <= m[10] <= m[50]
  {
    forall k | k in Cutoffs
      ensures Rate(rows, k) == Ok(|Flagged(rows, k, |rows|)| as real / |rows| as real * 100.0)
      ensures 0.0 <= Rate(rows, k).value <= 100.0
    {
      RateOfFlags(rows, k);
    }
    RatesMeaning(rows, Cutoffs);
    RateBelow(rows, 1, rows, 5);
    RateBelow(rows, 5, rows, 10);
    RateBelow(rows, 10, rows, 50);
  }

  /** What `evaluate` reports for records loaded by `get_qas_em`: the relation's name and,
      for both flag families, four percentages in [0, 100], each the flagged share of the
      records, non-decreasing in k. */
  lemma EvaluationOfFlags(name: string, emRows: seq<map<nat, int>>, emNRows: seq<map<nat, int>>)
    requires emRows != [] && |emNRows| == |emRows| && FlagRows(emRows) && FlagRows(emNRows)
    ensures EvaluationOf(name, emRows, emNRows).Ok?
    ensures var e := EvaluationOf(name, emRows, emNRows).value;
      && e.name == name
      && (forall k :: k in e.em <==> k in Cutoffs) && (forall k :: k in e.emN <==> k in Cutoffs)
      && (forall k :: k in Cutoffs ==> e.em[k] == |Flagged(emRows, k, |emRows|)| as real / |emRows| as real * 100.0)
      && (forall k :: k in Cutoffs ==> e.emN[k] == |Flagged(emNRows, k, |emRows|)| as real / |emRows| as real * 100.0)
      && (forall k :: k in Cutoffs ==> 0.0 <= e.em[k] <= 100.0 && 0.0 <= e.emN[k] <= 100.0)
      && e.em[1] <= e.em[5] <= e.em[10] <= e.em[50]
      && e.emN[1] <= e.emN[5] <= e.emN[10] <= e.emN[50]
  {
    RatesOfFlags(emRows);
    RatesOfFlags(emNRows);
  }

  /** EM@k is never above normalised EM@k when no record's exact flag is above its
      normalised one. */
  lemma EvaluationExactBelowNormalized(name: string, emRows: seq<map<nat, int>>, emNRows: seq<map<nat, int>>)
    requires emRows != [] && |emNRows| == |emRows| && FlagRows(emRows) && FlagRows(emNRows)
    requires forall i, k :: 0 <= i < |emRows| && k in Cutoffs ==> emRows[i][k] <= emNRows[i][k]
    ensures EvaluationOf(name, emRows, emNRows).Ok?
    ensures var e := EvaluationOf(name, emRows, emNRows).value;
      forall k :: k in Cutoffs ==> k in e.em && k in e.emN && e.em[k] <= e.emN[k]
  {
    RatesOfFlags(emRows);
    RatesOfFlags(emNRows);
    RatesMeaning(emRows, Cutoffs);
    RatesMeaning(emNRows, Cutoffs);
    forall k | k in Cutoffs
      ensures Rate(emRows, k).value <= Rate(emNRows, k).value
    {
      RateBelow(emRows, k, emNRows, k);
    }
  }

  /** How `evaluate` fails: no records divide by zero at the first cut-off; otherwise the
      only failure is a record without one of the flag keys, raising `KeyError`. */
  lemma EvaluationFailure(name: string, emRows: seq<map<nat, int>>, emNRows: seq<map<nat, int>>)
    ensures emRows == [] ==> EvaluationOf(name, emRows, emNRows) == Err(ZeroDivisionError)
    ensures emRows != [] && emNRows != [] ==>
      (EvaluationOf(name, emRows, emNRows).Err? <==>
         (exists i, k :: 0 <= i < |emRows| && k in Cutoffs && k !in emRows[i])
         || (exists i, k :: 0 <= i < |emNRows| && k in Cutoffs && k !in emNRows[i]))
    ensures EvaluationOf(name, emRows, emNRows).Err? ==>
      EvaluationOf(name, emRows, emNRows).error in {ZeroDivisionError, KeyError}
  {
    if emRows == [] {
      assert Cutoffs[..1] == [1];
      assert Rates(emRows, Cutoffs[..1]) == Err(ZeroDivisionError);
      RatesFailure(emRows, Cutoffs, 1);
    }
    if emRows != [] && emNRows != [] {
      RatesKeyError(emRows, Cutoffs);
      RatesKeyError(emNRows, Cutoffs);
    }
    RatesErrors(emRows, Cutoffs);
    RatesErrors(emNRows, Cutoffs);
  }

  /** On some records, the loop over `ks` fails exactly when a record lacks one of the keys. */
  lemma RatesKeyError(rows: seq<map<nat, int>>, ks: seq<nat>)
    requires rows != []
    ensures Rates(rows, ks).Err? <==> exists i, k :: 0 <= i < |rows| && k in ks && k !in rows[i]
  {
    RatesMeaning(rows, ks);
    if Rates(rows, ks).Err? {
      var t :| 0 <= t < |ks| && !Rate(rows, ks[t]).Ok?;
      assert !HasKey(rows, ks[t], |rows|);
      var i :| 0 <= i < |rows| && ks[t] !in rows[i];
      assert ks[t] in ks;
    } else {
      forall i, k | 0 <= i < |rows| && k in ks
        ensures k in rows[i]
      {
        var t :| 0 <= t < |ks| && ks[t] == k;
        assert Rate(rows, ks[t]).Ok?;
      }
    }
  }

  /** The loop over `ks` fails only with the exception of one of its rates. */
  lemma {:induction false} RatesErrors(rows: seq<map<nat, int>>, ks: seq<nat>)
    ensures Rates(rows, ks).Err? ==>
      exists i :: 0 <= i < |ks| && Rate(rows, ks[i]).Err? && Rate(rows, ks[i]).error == Rates(rows, ks).error
    decreases |ks|
  {
    if ks != [] {
      var init := ks[..|ks| - 1];
      RatesErrors(rows, init);
      if Rates(rows, init).Err? {
        var i :| 0 <= i < |init| && Rate(rows, init[i]).Err? && Rate(rows, init[i]).error == Rates(rows, init).error;
        assert init[i] == ks[i];
      }
    }
  }
}
