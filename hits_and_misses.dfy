/**
 * `hits_and_misses` in `evaluation/experiment_evaluation.py`: each record of a relation's
 * run, zipped with the baseline record at the same position, is sorted by their
 * normalised EM@5 flags into hits (the relation's run finds an answer the baseline
 * misses), misses (the reverse) and mistakes (both miss, yet the baseline record carries
 * the relation in the knowledge base).
 */
module HitsAndMisses {
  import opened Wrappers
  import opened Records
  import opened Retrieval
  import opened ExperimentEvaluation

  // ---------------------------------------------------------------------------------
  // the relation's display name
  // ---------------------------------------------------------------------------------

  /** `pat` occurs in s at position i. */
  predicate OccursAt(s: string, pat: string, i: nat) {
    i + |pat| <= |s| && MatchFrom(s, pat, i, 0)
  }

  /** s agrees with `pat` at position i from the j-th character of `pat` on. */
  predicate MatchFrom(s: string, pat: string, i: nat, j: nat)
    requires i + |pat| <= |s| && j <= |pat|
    decreases |pat| - j
  {
    j == |pat| || (s[i + j] == pat[j] && MatchFrom(s, pat, i, j + 1))
  }

  /** `s.replace(pat, rep)` from position i on: every occurrence of `pat`, scanning left to
      right and never inside a replacement, becomes `rep`. */
  function ReplaceFrom(s: string, pat: string, rep: string, i: nat): string
    requires pat != [] && i <= |s|
    decreases |s| - i
  {
    if i + |pat| > |s| then s[i..]
    else if OccursAt(s, pat, i) then rep + ReplaceFrom(s, pat, rep, i + |pat|)
    else [s[i]] + ReplaceFrom(s, pat, rep, i + 1)
  }

  function Replace(s: string, pat: string, rep: string): string
    requires pat != []
  {
    ReplaceFrom(s, pat, rep, 0)
  }

  /** `relation.replace('_el', '').replace('_', ' ')`. */
  function RelationName(relation: string): string {
    Replace(Replace(relation, "_el", ""), "_", " ")
  }

  /** Replacing one character by another is the character-wise substitution. */
  lemma {:induction false} ReplaceCharFrom(s: string, c: char, d: char, i: nat)
    requires i <= |s|
    ensures var r := ReplaceFrom(s, [c], [d], i);
      |r| == |s| - i && forall j :: 0 <= j < |r| ==> r[j] == if s[i + j] == c then d else s[i + j]
    decreases |s| - i
  {
    if i < |s| {
      assert MatchFrom(s, [c], i, 1);
      ReplaceCharFrom(s, c, d, i + 1);
      var rest := ReplaceFrom(s, [c], [d], i + 1);
      assert ReplaceFrom(s, [c], [d], i) == [if s[i] == c then d else s[i]] + rest;
    }
  }

  /** Deleting a pattern never lengthens the text and leaves text without it as it is. */
  lemma {:induction false} DeleteFrom(s: string, pat: string, i: nat)
    requires pat != [] && i <= |s|
    ensures |ReplaceFrom(s, pat, "", i)| <= |s| - i
    ensures (forall j :: i <= j ==> !OccursAt(s, pat, j)) ==> ReplaceFrom(s, pat, "", i) == s[i..]
    decreases |s| - i
  {
    if i + |pat| <= |s| {
      if OccursAt(s, pat, i) {
        DeleteFrom(s, pat, i + |pat|);
      } else {
        DeleteFrom(s, pat, i + 1);
        assert s[i..] == [s[i]] + s[i + 1..];
      }
    }
  }

  /** The display name keeps the relation's length less the deleted `_el`s, and has its
      underscores turned into spaces: it holds no underscore. */
  lemma RelationNameShape(relation: string)
    ensures |RelationName(relation)| <= |relation|
    ensures forall j :: 0 <= j < |RelationName(relation)| ==> RelationName(relation)[j] != '_'
    ensures (forall j :: !OccursAt(relation, "_el", j)) ==>
      RelationName(relation) == seq(|relation|, j requires 0 <= j < |relation| => if relation[j] == '_' then ' ' else relation[j])
  {
    var dropped := Replace(relation, "_el", "");
    DeleteFrom(relation, "_el", 0);
    ReplaceCharFrom(dropped, '_', ' ', 0);
    assert relation[0..] == relation;
  }

  /** The entity-linked run of `genre`, `genre_el`, is looked up as `genre`. */
  lemma GenreEl()
    ensures RelationName("genre_el") == "genre"
  {
  }

  // ---------------------------------------------------------------------------------
  // the classification
  // ---------------------------------------------------------------------------------

  /** What the classification reads of a record: its id, if it has one, its question, the
      fields scoring wrote and its relation maps. */
  datatype View = View(id: Option<int>, question: string, fields: After,
                       wikidataRelations: Relations, dbpediaRelations: Relations)

  function ViewOf(qa: QaRecord): View
    reads qa
  {
    View(qa.id, qa.question, Current(qa), qa.wikidataRelations, qa.dbpediaRelations)
  }

  function Views(qas: seq<QaRecord>): (r: seq<View>)
    reads set qa | qa in qas
    ensures |r| == |qas| && forall i :: 0 <= i < |qas| ==> r[i] == ViewOf(qas[i])
  {
    seq(|qas|, i requires 0 <= i < |qas| reads set qa | qa in qas => ViewOf(qas[i]))
  }

  /** `{'id': i + 1, **qa, 'retrieved_qas_baseline': qa_base['retrieved_qas']}`: the
      record's own id, when it has one, overrides the 1-based position. */
  datatype Combined = Combined(id: int, question: string, fields: After, wikidataRelations: Relations,
                               dbpediaRelations: Relations, retrievedQasBaseline: seq<RetrievedQa>)

  function CombinedOf(qa: View, base: View, i: nat): (c: Combined)
    ensures qa.id.None? ==> c.id == i + 1
    ensures c.retrievedQasBaseline == base.fields.retrievedQas
  {
    Combined(if qa.id.Some? then qa.id.value else i + 1, qa.question, qa.fields,
             qa.wikidataRelations, qa.dbpediaRelations, base.fields.retrievedQas)
  }

  /** `qa_base.get(f'{kb}_relations', {})` for the two knowledge bases records carry. */
  function KbRelations(base: View, kb: string): Relations {
    SourceRelations(base.wikidataRelations, base.dbpediaRelations, kb)
  }

  datatype Kind = HitKind | MissKind | MistakeKind

  /** Whether the pair at one position goes to the list of `kind`, given both records have
      `em_n_5`. */
  predicate IsKind(kind: Kind, qa: View, base: View, name: string, kb: string)
    requires 5 in qa.fields.emN && 5 in base.fields.emN
  {
    var e, b := qa.fields.emN[5], base.fields.emN[5];
    match kind
    case HitKind => e != 0 && b == 0
    case MissKind => e == 0 && b != 0
    case MistakeKind => e == 0 && b == 0 && Truthy(Lookup(KbRelations(base, kb), name))
  }

  /** The first n pairs all have `em_n_5`. */
  predicate Keyed(qas: seq<View>, bases: seq<View>, n: nat) {
    n <= |qas| && n <= |bases| && forall i :: 0 <= i < n ==> 5 in qas[i].fields.emN && 5 in bases[i].fields.emN
  }

  /** The combined records of the first n pairs that go to the list of `kind`, in order. */
  function Select(qas: seq<View>, bases: seq<View>, name: string, kb: string, kind: Kind, n: nat): seq<Combined>
    requires Keyed(qas, bases, n)
  {
    if n == 0 then []
    else
      Select(qas, bases, name, kb, kind, n - 1)
      + if IsKind(kind, qas[n - 1], bases[n - 1], name, kb) then [CombinedOf(qas[n - 1], bases[n - 1], n - 1)] else []
  }

  /** The three lists `hits_and_misses` returns (the mistakes before formatting). */
  datatype Classification = Classification(hits: seq<Combined>, misses: seq<Combined>, mistakes: seq<Combined>)

  /** `hits_and_misses` on the records of the relation's run (`qas`) and of the baseline
      (`baselineQas`): nothing is written to the records, so the loop reads their views. */
  method Classify(qas: seq<QaRecord>, baselineQas: seq<QaRecord>, relation: string, name: Option<string>, kb: string)
    returns (r: Result<Classification>)
    ensures var n := Min(|qas|, |baselineQas|);
      r.Err? <==> !Keyed(Views(qas), Views(baselineQas), n)
    ensures r.Err? ==> r.error == KeyError
    ensures var n, views, bases := Min(|qas|, |baselineQas|), Views(qas), Views(baselineQas);
      var key := if name.Some? then name.value else RelationName(relation);
      r.Ok? ==> Keyed(views, bases, n) && r.value == Classification(
        Select(views, bases, key, kb, HitKind, n), Select(views, bases, key, kb, MissKind, n),
        Select(views, bases, key, kb, MistakeKind, n))
  {
    r := ClassifyViews(Views(qas), Views(baselineQas), relation, name, kb);
  }

  /** The loop of `hits_and_misses` over the zipped records; `name` is the relation's name
      in the knowledge base, derived from `relation` in the first pass when absent. A pair
      where either record lacks `em_n_5` raises `KeyError`. */
  method ClassifyViews(qas: seq<View>, bases: seq<View>, relation: string, name: Option<string>, kb: string)
    returns (r: Result<Classification>)
    ensures var n := Min(|qas|, |bases|);
      r.Err? <==> !Keyed(qas, bases, n)
    ensures r.Err? ==> r.error == KeyError
    ensures var n, key := Min(|qas|, |bases|), if name.Some? then name.value else RelationName(relation);
      r.Ok? ==> Keyed(qas, bases, n) && r.value == Classification(
        Select(qas, bases, key, kb, HitKind, n), Select(qas, bases, key, kb, MissKind, n),
        Select(qas, bases, key, kb, MistakeKind, n))
  {
    var n := Min(|qas|, |bases|);
    ghost var key := if name.Some? then name.value else RelationName(relation);
    var hits, misses, mistakes := [], [], [];
    var name' := name;
    for i := 0 to n
      invariant Keyed(qas, bases, i)
      invariant name' == if i == 0 then name else Some(key)
      invariant hits == Select(qas, bases, key, kb, HitKind, i)
      invariant misses == Select(qas, bases, key, kb, MissKind, i)
      invariant mistakes == Select(qas, bases, key, kb, MistakeKind, i)
    {
      var qa, base := qas[i], bases[i];
      if 5 !in qa.fields.emN || 5 !in base.fields.emN {
        return Err(KeyError);
      }
      SelectStep(qas, bases, key, kb, HitKind, i, qa, base);
      SelectStep(qas, bases, key, kb, MissKind, i, qa, base);
      SelectStep(qas, bases, key, kb, MistakeKind, i, qa, base);
      var combined := CombinedOf(qa, base, i);
      if name'.None? {
        name' := Some(RelationName(relation));
      }
      var e, b := qa.fields.emN[5], base.fields.emN[5];
      if e == 0 && b == 0 && Truthy(Lookup(KbRelations(base, kb), name'.value)) {
        mistakes := mistakes + [combined];
      }
      if e != 0 && b == 0 {
        hits := hits + [combined];
      } else if e == 0 && b != 0 {
        misses := misses + [combined];
      }
    }
    r := Ok(Classification(hits, misses, mistakes));
  }

  /** Extending `Select` by the pair at position i, read as the values `qa` and `base`. */
  lemma SelectStep(qas: seq<View>, bases: seq<View>, name: string, kb: string, kind: Kind, i: nat, qa: View, base: View)
    requires Keyed(qas, bases, i) && i < |qas| && i < |bases|
    requires qa == qas[i] && base == bases[i]
    requires 5 in qa.fields.emN && 5 in base.fields.emN
    ensures Keyed(qas, bases, i + 1)
    ensures Select(qas, bases, name, kb, kind, i + 1)
      == Select(qas, bases, name, kb, kind, i) + if IsKind(kind, qa, base, name, kb) then [CombinedOf(qa, base, i)] else []
  {
  }

  /** A combined record is in the list of `kind` exactly when some pair of that kind
      produced it. */
  lemma {:induction false} SelectMembers(qas: seq<View>, bases: seq<View>, name: string, kb: string, kind: Kind, n: nat, c: Combined)
    requires Keyed(qas, bases, n)
    ensures c in Select(qas, bases, name, kb, kind, n) <==>
      exists i :: 0 <= i < n && IsKind(kind, qas[i], bases[i], name, kb) && c == CombinedOf(qas[i], bases[i], i)
  {
    if n > 0 {
      SelectMembers(qas, bases, name, kb, kind, n - 1, c);
    }
  }

  /** No pair is of two kinds: hits, misses and mistakes are disjoint classes. */
  lemma KindsExclusive(qa: View, base: View, name: string, kb: string, kind: Kind, kind': Kind)
    requires 5 in qa.fields.emN && 5 in base.fields.emN
    requires IsKind(kind, qa, base, name, kb) && IsKind(kind', qa, base, name, kb)
    ensures kind == kind'
  {
  }

  /** Each pair lands in at most one list, so together the lists are no longer than the
      zipped records. */
  lemma {:induction false} SelectedAtMostAll(qas: seq<View>, bases: seq<View>, name: string, kb: string, n: nat)
    requires Keyed(qas, bases, n)
    ensures |Select(qas, bases, name, kb, HitKind, n)| + |Select(qas, bases, name, kb, MissKind, n)|
      + |Select(qas, bases, name, kb, MistakeKind, n)| <= n
  {
    if n > 0 {
      SelectedAtMostAll(qas, bases, name, kb, n - 1);
    }
  }

  /** The hits are the pairs whose relation run has `em_n_5` set and whose baseline has not;
      without record ids, the hit at position i carries id i + 1. */
  lemma HitsAre(qas: seq<View>, bases: seq<View>, name: string, kb: string, n: nat, i: nat)
    requires Keyed(qas, bases, n) && i < n
    requires qas[i].fields.emN[5] != 0 && bases[i].fields.emN[5] == 0
    ensures CombinedOf(qas[i], bases[i], i) in Select(qas, bases, name, kb, HitKind, n)
    ensures qas[i].id.None? ==> CombinedOf(qas[i], bases[i], i).id == i + 1
  {
    SelectMembers(qas, bases, name, kb, HitKind, n, CombinedOf(qas[i], bases[i], i));
  }
}
