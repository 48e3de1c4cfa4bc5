/**
 * The EM@k hit flags both evaluation scripts compute for a record: for each cut-off k,
 * whether the first phrasing of some retrieved QA pair among the first k matches some
 * ground truth, written into the record as `em_n_k` (normalised match) and `em_k`
 * (exact match).
 */
module Retrieval {
  import opened Wrappers
  import opened Normalize
  import opened Equivalence
  import opened Records

  function Min(a: nat, b: nat): nat {
    if a <= b then a else b
  }

  /** Some entry among the first k (`retrieved_qas[:k]`) has a first phrasing that scores
      under `metric` against some ground truth. */
  predicate Hit(metric: (string, string, string) -> bool, retrieved: seq<RetrievedQa>, k: nat,
                groundTruths: seq<string>, question: string)
  {
    exists i :: 0 <= i < Min(k, |retrieved|) && retrieved[i].answer != []
      && Matches(metric, retrieved[i].answer[0], groundTruths, question)
  }

  /** `metric_max_over_ground_truths(metric, prediction, gts, q)` on a non-empty list:
      the prediction scores against some ground truth. */
  predicate Matches(metric: (string, string, string) -> bool, prediction: string, groundTruths: seq<string>, question: string) {
    exists j :: 0 <= j < |groundTruths| && metric(prediction, groundTruths[j], question)
  }

  /** Every entry among the first n has at least one phrasing. */
  predicate Answered(retrieved: seq<RetrievedQa>, n: nat) {
    forall i :: 0 <= i < Min(n, |retrieved|) ==> retrieved[i].answer != []
  }

  /** What `any([metric_max_over_ground_truths(metric, p['answer'][0], gts, q) for p in
      retrieved_qas[:k]])` evaluates to. The list is built in full before `any` looks at it,
      so the first entry without a phrasing raises `IndexError`, and `max([])` raises
      `ValueError` on the first entry when there are no ground truths. */
  function RetrievalScore(metric: (string, string, string) -> bool, retrieved: seq<RetrievedQa>, k: nat,
                          groundTruths: seq<string>, question: string): Result<bool>
  {
    if Min(k, |retrieved|) == 0 then Ok(false)
    else if retrieved[0].answer == [] then Err(IndexError)
    else if groundTruths == [] then Err(ValueError)
    else if !Answered(retrieved, k) then Err(IndexError)
    else Ok(Hit(metric, retrieved, k, groundTruths, question))
  }

  /** The comprehension and `any` of one cut-off. */
  method AnyRetrieved(metric: (string, string, string) -> bool, retrieved: seq<RetrievedQa>, k: nat,
                      groundTruths: seq<string>, question: string)
    returns (r: Result<bool>)
    ensures r == RetrievalScore(metric, retrieved, k, groundTruths, question)
  {
    var n := Min(k, |retrieved|);
    var scores: seq<bool> := [];
    for i := 0 to n
      invariant |scores| == i
      invariant forall t :: 0 <= t < i ==> retrieved[t].answer != []
      invariant i > 0 ==> groundTruths != []
      invariant forall t :: 0 <= t < i ==>
        (scores[t] <==> exists j :: 0 <= j < |groundTruths| && metric(retrieved[t].answer[0], groundTruths[j], question))
    {
      if retrieved[i].answer == [] {
        return Err(IndexError);
      }
      var p := retrieved[i].answer[0];
      var s := MetricMaxOverGroundTruths(metric, Single(p), groundTruths, question);
      SingleIsList(metric, p, groundTruths, question);
      if s.Err? {
        return Err(s.error);
      }
      scores := scores + [s.value];
    }
    r := Ok(true in scores);
    if true in scores {
      var t :| 0 <= t < |scores| && scores[t];
      var j :| 0 <= j < |groundTruths| && metric(retrieved[t].answer[0], groundTruths[j], question);
    }
    if Hit(metric, retrieved, k, groundTruths, question) {
      var t, j :| 0 <= t < n && 0 <= j < |groundTruths| && retrieved[t].answer != []
        && metric(retrieved[t].answer[0], groundTruths[j], question);
      assert scores[t];
    }
  }

  /** The flags written for the four cut-offs: `1 if em else 0`. */
  function Flags(metric: (string, string, string) -> bool, retrieved: seq<RetrievedQa>,
                 groundTruths: seq<string>, question: string): map<nat, int>
  {
    map k | k in Cutoffs :: Flag(Hit(metric, retrieved, k, groundTruths, question))
  }

  /** The flags are written for exactly the four cut-offs, each 1 on a hit and 0 otherwise. */
  lemma FlagsMeaning(metric: (string, string, string) -> bool, retrieved: seq<RetrievedQa>,
                     groundTruths: seq<string>, question: string)
    ensures var r := Flags(metric, retrieved, groundTruths, question);
      && r.Keys == {1, 5, 10, 50}
      && (forall k :: k in r ==> r[k] == 0 || r[k] == 1)
      && (forall k :: k in r ==> (r[k] == 1 <==> Hit(metric, retrieved, k, groundTruths, question)))
  {
  }

  /** The flags written for the cut-offs before position t of `Cutoffs`. */
  function FlagsUpTo(metric: (string, string, string) -> bool, retrieved: seq<RetrievedQa>,
                     groundTruths: seq<string>, question: string, t: nat): map<nat, int>
    requires t <= |Cutoffs|
  {
    map k | k in Cutoffs[..t] :: Flag(Hit(metric, retrieved, k, groundTruths, question))
  }

  /** How `augment_qa_em_scores` ends, given the ground truths of its normalised match
      (`normalized`) and of its exact match (`exact`): the first failure of its loop, if any. */
  function AugmentOutcome(retrieved: seq<RetrievedQa>, normalized: seq<string>, exact: seq<string>): Outcome {
    if retrieved == [] then Fail(IndexError)
    else if retrieved[0].answer == [] then Fail(IndexError)
    else if normalized == [] then Fail(ValueError)
    else if exact == [] then Fail(ValueError)
    else if !Answered(retrieved, 50) then Fail(IndexError)
    else Pass
  }

  /** The loop of `augment_qa_em_scores` has passed the first t cut-offs without failing. */
  predicate Reached(retrieved: seq<RetrievedQa>, normalized: seq<string>, exact: seq<string>, t: nat)
    requires t <= |Cutoffs|
  {
    t > 0 ==> retrieved != [] && retrieved[0].answer != [] && normalized != [] && exact != []
              && Answered(retrieved, Cutoffs[t - 1])
  }

  /** The loop of `augment_qa_em_scores`, shared by both evaluation scripts, which differ
      only in the ground truths they pass; both pass `exact_match_score_normalized` as
      `normMetric` and `exact_match_score` as `exactMetric`. */
  method AugmentWith(qa: QaRecord, normMetric: (string, string, string) -> bool, normalized: seq<string>,
                     exactMetric: (string, string, string) -> bool, exact: seq<string>)
    returns (r: Outcome)
    modifies qa`retrievedQaScore, qa`em, qa`emN
    ensures r == AugmentOutcome(qa.retrievedQas, normalized, exact)
    ensures r.Pass? ==> qa.retrievedQas != [] && qa.retrievedQaScore == qa.retrievedQas[0].score
    ensures r.Pass? ==> qa.emN == old(qa.emN) + Flags(normMetric, qa.retrievedQas, normalized, qa.question)
    ensures r.Pass? ==> qa.em == old(qa.em) + Flags(exactMetric, qa.retrievedQas, exact, qa.question)
  {
    for t := 0 to |Cutoffs|
      invariant Reached(qa.retrievedQas, normalized, exact, t)
      invariant t > 0 ==> qa.retrievedQaScore == qa.retrievedQas[0].score
      invariant qa.emN == old(qa.emN) + FlagsUpTo(normMetric, qa.retrievedQas, normalized, qa.question, t)
      invariant qa.em == old(qa.em) + FlagsUpTo(exactMetric, qa.retrievedQas, exact, qa.question, t)
    {
      var failure := ScoreCutoff(qa, normMetric, normalized, exactMetric, exact, t, old(qa.emN), old(qa.em));
      if failure.Some? {
        return Fail(failure.value);
      }
    }
    r := Pass;
    assert Cutoffs[..4] == Cutoffs;
  }

  /** One pass of the loop of `augment_qa_em_scores`, for the cut-off at position t; it
      returns the exception that ends the loop, if one does. */
  method ScoreCutoff(qa: QaRecord, normMetric: (string, string, string) -> bool, normalized: seq<string>,
                     exactMetric: (string, string, string) -> bool, exact: seq<string>, t: nat,
                     ghost emN0: map<nat, int>, ghost em0: map<nat, int>)
    returns (failure: Option<Error>)
    requires t < |Cutoffs| && Reached(qa.retrievedQas, normalized, exact, t)
    requires qa.emN == emN0 + FlagsUpTo(normMetric, qa.retrievedQas, normalized, qa.question, t)
    requires qa.em == em0 + FlagsUpTo(exactMetric, qa.retrievedQas, exact, qa.question, t)
    modifies qa`retrievedQaScore, qa`em, qa`emN
    ensures failure.Some? ==> AugmentOutcome(qa.retrievedQas, normalized, exact) == Fail(failure.value)
    ensures failure.None? ==> Reached(qa.retrievedQas, normalized, exact, t + 1)
    ensures failure.None? ==> qa.retrievedQaScore == qa.retrievedQas[0].score
    ensures failure.None? ==> qa.emN == emN0 + FlagsUpTo(normMetric, qa.retrievedQas, normalized, qa.question, t + 1)
    ensures failure.None? ==> qa.em == em0 + FlagsUpTo(exactMetric, qa.retrievedQas, exact, qa.question, t + 1)
  {
    var retrieved, question, k := qa.retrievedQas, qa.question, Cutoffs[t];
    var a := AnyRetrieved(normMetric, retrieved, k, normalized, question);
    if a.Err? {
      NormalizedFailure(normMetric, retrieved, normalized, exact, question, t);
      return Some(a.error);
    }
    if retrieved == [] {
      return Some(IndexError);
    }
    qa.retrievedQaScore := retrieved[0].score;
    NextFlags(normMetric, retrieved, normalized, question, t, emN0, qa.emN, a.value);
    qa.emN := qa.emN[k := Flag(a.value)];
    var b := AnyRetrieved(exactMetric, retrieved, k, exact, question);
    if b.Err? {
      ExactFailure(normMetric, exactMetric, retrieved, normalized, exact, question, t);
      return Some(b.error);
    }
    NextFlags(exactMetric, retrieved, exact, question, t, em0, qa.em, b.value);
    qa.em := qa.em[k := Flag(b.value)];
    CutoffPassed(normMetric, exactMetric, retrieved, normalized, exact, question, t);
    failure := None;
  }

  /** A failure of the normalised comprehension at cut-off t is the loop's first failure. */
  lemma NormalizedFailure(normMetric: (string, string, string) -> bool,
                           retrieved: seq<RetrievedQa>, normalized: seq<string>, exact: seq<string>, question: string, t: nat)
    requires t < |Cutoffs| && Reached(retrieved, normalized, exact, t)
    requires RetrievalScore(normMetric, retrieved, Cutoffs[t], normalized, question).Err?
    ensures AugmentOutcome(retrieved, normalized, exact)
            == Fail(RetrievalScore(normMetric, retrieved, Cutoffs[t], normalized, question).error)
  {
  }

  /** A failure of the exact comprehension at cut-off t is the loop's first failure. */
  lemma ExactFailure(normMetric: (string, string, string) -> bool, exactMetric: (string, string, string) -> bool,
                      retrieved: seq<RetrievedQa>, normalized: seq<string>, exact: seq<string>, question: string, t: nat)
    requires t < |Cutoffs| && Reached(retrieved, normalized, exact, t) && retrieved != []
    requires RetrievalScore(normMetric, retrieved, Cutoffs[t], normalized, question).Ok?
    requires RetrievalScore(exactMetric, retrieved, Cutoffs[t], exact, question).Err?
    ensures AugmentOutcome(retrieved, normalized, exact)
            == Fail(RetrievalScore(exactMetric, retrieved, Cutoffs[t], exact, question).error)
  {
  }

  /** Both comprehensions of cut-off t succeeding passes that cut-off. */
  lemma CutoffPassed(normMetric: (string, string, string) -> bool, exactMetric: (string, string, string) -> bool,
                      retrieved: seq<RetrievedQa>, normalized: seq<string>, exact: seq<string>, question: string, t: nat)
    requires t < |Cutoffs| && Reached(retrieved, normalized, exact, t) && retrieved != []
    requires RetrievalScore(normMetric, retrieved, Cutoffs[t], normalized, question).Ok?
    requires RetrievalScore(exactMetric, retrieved, Cutoffs[t], exact, question).Ok?
    ensures Reached(retrieved, normalized, exact, t + 1)
  {
  }

  /** Writing the flag of cut-off t extends the flags written before it. */
  lemma NextFlags(metric: (string, string, string) -> bool, retrieved: seq<RetrievedQa>,
                  groundTruths: seq<string>, question: string, t: nat, before: map<nat, int>, current: map<nat, int>, hit: bool)
    requires t < |Cutoffs|
    requires current == before + FlagsUpTo(metric, retrieved, groundTruths, question, t)
    requires RetrievalScore(metric, retrieved, Cutoffs[t], groundTruths, question) == Ok(hit)
    ensures current[Cutoffs[t] := Flag(hit)] == before + FlagsUpTo(metric, retrieved, groundTruths, question, t + 1)
  {
    ScoreValue(metric, retrieved, Cutoffs[t], groundTruths, question, hit);
    FlagsStep(metric, retrieved, groundTruths, question, t);
    UnionUpdate(before, FlagsUpTo(metric, retrieved, groundTruths, question, t), Cutoffs[t], Flag(hit));
  }

  /** A successful comprehension yields the hit. */
  lemma ScoreValue(metric: (string, string, string) -> bool, retrieved: seq<RetrievedQa>, k: nat,
                   groundTruths: seq<string>, question: string, hit: bool)
    requires RetrievalScore(metric, retrieved, k, groundTruths, question) == Ok(hit)
    ensures hit == Hit(metric, retrieved, k, groundTruths, question)
  {
  }

  lemma UnionUpdate(before: map<nat, int>, f: map<nat, int>, k: nat, v: int)
    ensures (before + f)[k := v] == before + f[k := v]
  {
  }

  lemma FlagsStep(metric: (string, string, string) -> bool, retrieved: seq<RetrievedQa>,
                  groundTruths: seq<string>, question: string, t: nat)
    requires t < |Cutoffs|
    ensures FlagsUpTo(metric, retrieved, groundTruths, question, t + 1)
            == FlagsUpTo(metric, retrieved, groundTruths, question, t)[Cutoffs[t] := Flag(Hit(metric, retrieved, Cutoffs[t], groundTruths, question))]
  {
    assert Cutoffs[..t + 1] == Cutoffs[..t] + [Cutoffs[t]];
  }

  // ---------------------------------------------------------------------------------
  // What the flags depend on
  // ---------------------------------------------------------------------------------

  /** A larger cut-off only extends the `any`. */
  lemma HitMonotone(metric: (string, string, string) -> bool, retrieved: seq<RetrievedQa>, k: nat, k': nat,
                    groundTruths: seq<string>, question: string)
    requires k <= k'
    ensures Hit(metric, retrieved, k, groundTruths, question) ==> Hit(metric, retrieved, k', groundTruths, question)
  {
  }

  /** `em_1 <= em_5 <= em_10 <= em_50`, and likewise for the normalised flags. */
  lemma FlagsMonotone(metric: (string, string, string) -> bool, retrieved: seq<RetrievedQa>,
                      groundTruths: seq<string>, question: string)
    ensures var f := Flags(metric, retrieved, groundTruths, question); f[1] <= f[5] <= f[10] <= f[50]
  {
    HitMonotone(metric, retrieved, 1, 5, groundTruths, question);
    HitMonotone(metric, retrieved, 5, 10, groundTruths, question);
    HitMonotone(metric, retrieved, 10, 50, groundTruths, question);
  }

  /** What the scoring sees of `retrieved_qas[:k]`: the first phrasing of each entry, or
      that it has none. */
  function Heads(retrieved: seq<RetrievedQa>, k: nat): (r: seq<Option<string>>)
    ensures |r| == Min(k, |retrieved|)
    ensures forall i :: 0 <= i < |r| ==> (r[i].None? <==> retrieved[i].answer == [])
    ensures forall i :: 0 <= i < |r| && r[i].Some? ==> r[i].value == retrieved[i].answer[0]
  {
    seq(Min(k, |retrieved|), i requires 0 <= i < Min(k, |retrieved|) =>
      if retrieved[i].answer == [] then None else Some(retrieved[i].answer[0]))
  }

  /** Two retrieval lists with the same first phrasings in their first k entries score alike:
      the entries after k, their scores and their other phrasings do not matter. */
  lemma HeadsDecide(metric: (string, string, string) -> bool, retrieved: seq<RetrievedQa>, other: seq<RetrievedQa>,
                    k: nat, groundTruths: seq<string>, question: string)
    requires Heads(retrieved, k) == Heads(other, k)
    ensures Hit(metric, retrieved, k, groundTruths, question) == Hit(metric, other, k, groundTruths, question)
    ensures RetrievalScore(metric, retrieved, k, groundTruths, question) == RetrievalScore(metric, other, k, groundTruths, question)
  {
    var h, h' := Heads(retrieved, k), Heads(other, k);
    forall i | 0 <= i < Min(k, |retrieved|)
      ensures (retrieved[i].answer == []) == (other[i].answer == [])
      ensures retrieved[i].answer != [] ==> retrieved[i].answer[0] == other[i].answer[0]
    {
      assert h[i] == h'[i];
    }
  }

  /** The flags of a record and how its scoring ends depend only on the first phrasings of
      its first 50 retrieved entries. */
  lemma HeadsDecideRecord(normMetric: (string, string, string) -> bool, exactMetric: (string, string, string) -> bool,
                          retrieved: seq<RetrievedQa>, other: seq<RetrievedQa>,
                          normalized: seq<string>, exact: seq<string>, question: string)
    requires Heads(retrieved, 50) == Heads(other, 50)
    ensures AugmentOutcome(retrieved, normalized, exact) == AugmentOutcome(other, normalized, exact)
    ensures Flags(normMetric, retrieved, normalized, question) == Flags(normMetric, other, normalized, question)
    ensures Flags(exactMetric, retrieved, exact, question) == Flags(exactMetric, other, exact, question)
  {
    HeadsDecide(normMetric, retrieved, other, 50, normalized, question);
    forall k | k in Cutoffs
      ensures Hit(normMetric, retrieved, k, normalized, question) == Hit(normMetric, other, k, normalized, question)
      ensures Hit(exactMetric, retrieved, k, exact, question) == Hit(exactMetric, other, k, exact, question)
    {
      ShorterHeads(retrieved, other, k);
      HeadsDecide(normMetric, retrieved, other, k, normalized, question);
      HeadsDecide(exactMetric, retrieved, other, k, exact, question);
    }
    if retrieved != [] {
      assert Heads(retrieved, 50)[0] == Heads(other, 50)[0];
    }
  }

  lemma ShorterHeads(retrieved: seq<RetrievedQa>, other: seq<RetrievedQa>, k: nat)
    requires k <= 50 && Heads(retrieved, 50) == Heads(other, 50)
    ensures Heads(retrieved, k) == Heads(other, k)
  {
    var h, h' := Heads(retrieved, 50), Heads(other, 50);
    assert |Heads(retrieved, k)| == |Heads(other, k)|;
    forall i | 0 <= i < Min(k, |retrieved|) ensures Heads(retrieved, k)[i] == Heads(other, k)[i] {
      assert h[i] == h'[i];
    }
  }

  /** An exact hit against ground truths that are all among a larger list is a normalised hit
      against that list: exact match is the first branch of the normalised match. */
  lemma ExactHitIsNormalizedHit(retrieved: seq<RetrievedQa>, k: nat, exact: seq<string>, normalized: seq<string>, question: string)
    requires forall g :: g in exact ==> g in normalized
    ensures Hit(ExactMatchScore, retrieved, k, exact, question) ==> Hit(ExactMatchScoreNormalized, retrieved, k, normalized, question)
  {
    if Hit(ExactMatchScore, retrieved, k, exact, question) {
      var i, j :| 0 <= i < Min(k, |retrieved|) && 0 <= j < |exact|
        && retrieved[i].answer != [] && ExactMatchScore(retrieved[i].answer[0], exact[j], question);
      assert exact[j] in normalized;
      var j' :| 0 <= j' < |normalized| && normalized[j'] == exact[j];
      ExactImpliesNormalized(retrieved[i].answer[0], normalized[j'], question);
    }
  }

  /** `em_k <= em_n_k` for every cut-off. */
  lemma ExactFlagsBelowNormalized(retrieved: seq<RetrievedQa>, exact: seq<string>, normalized: seq<string>, question: string)
    requires forall g :: g in exact ==> g in normalized
    ensures forall k :: k in Cutoffs ==>
      Flags(ExactMatchScore, retrieved, exact, question)[k] <= Flags(ExactMatchScoreNormalized, retrieved, normalized, question)[k]
  {
    forall k | k in Cutoffs
      ensures Flags(ExactMatchScore, retrieved, exact, question)[k] <= Flags(ExactMatchScoreNormalized, retrieved, normalized, question)[k]
    {
      ExactHitIsNormalizedHit(retrieved, k, exact, normalized, question);
    }
  }
}
