/**
 * The row expansion of `load_data` in the dataset statistics script: every record
 * becomes one row per knowledge-base relation it carries (or a single row, itself,
 * when it carries none), each row naming the relation, its cardinality and its source.
 * The records are local to `load_data` and the rows are copied into a data frame, so
 * they are modelled as values: `copy(qa)` is a copy of the value and the updates of
 * `qa` are reassignments of a local variable.
 */
module DatasetStats {
  import opened Wrappers
  import opened Records
  import opened Seqs

  /** The fields of a record other than the three `kb_*` fields the expansion sets. */
  datatype Base = Base(question: string, answer: seq<string>, answerAlias: seq<string>, answerOriginal: seq<string>,
                       id: Option<int>, retrievedQas: seq<RetrievedQa>, retrievedQaScore: real,
                       em: map<nat, int>, emN: map<nat, int>,
                       wikidataRelations: Relations, dbpediaRelations: Relations)

  /** A record of the results file, and a row of `qas_expanded`: its other fields and its
      `kb_*` fields. */
  datatype Row = Row(base: Base, kbRelation: Option<string>, kbRelationCardinality: int, kbRelationSource: Option<string>)

  /** The sources, in the order the expansion visits them. */
  const Sources: seq<string> := ["wikidata", "dbpedia"]

  /** Neither relation map is truthy (each is missing or empty). */
  predicate NoRelations(base: Base) {
    base.wikidataRelations == [] && base.dbpediaRelations == []
  }

  /** The relations a source contributes: only `name` when its map has a truthy `name`
      entry, otherwise the whole map. */
  function Contributed(relations: Relations): Relations {
    var name := Lookup(relations, "name");
    if Truthy(name) then [("name", name.value)] else relations
  }

  /** The rows one source contributes, one per contributed relation, in map order. */
  function SourceRows(base: Base, source: string, relations: Relations): seq<Row> {
    var contributed := Contributed(relations);
    seq(|contributed|, j requires 0 <= j < |contributed| =>
      Row(base, Some(contributed[j].0), contributed[j].1, Some(source)))
  }

  /** The rows of the first s sources. */
  function SourcesRows(base: Base, s: nat): seq<Row>
    requires s <= |Sources|
  {
    if s == 0 then []
    else SourcesRows(base, s - 1)
         + SourceRows(base, Sources[s - 1], SourceRelations(base.wikidataRelations, base.dbpediaRelations, Sources[s - 1]))
  }

  /** The rows one record expands to. */
  function Expand(base: Base): seq<Row> {
    if NoRelations(base) then [Row(base, None, 0, None)]
    else SourcesRows(base, |Sources|)
  }

  /** The rows a sequence of records expands to, record after record. */
  function ExpandAll(qas: seq<Row>): seq<Row> {
    if qas == [] then []
    else ExpandAll(qas[..|qas| - 1]) + Expand(qas[|qas| - 1].base)
  }

  /** The loop of `load_data` over the loaded records. */
  method LoadData(qas: seq<Row>) returns (expanded: seq<Row>)
    ensures expanded == ExpandAll(qas)
  {
    expanded := [];
    for i := 0 to |qas|
      invariant expanded == ExpandAll(qas[..i])
    {
      assert qas[..i + 1][..i] == qas[..i];
      var rows := ExpandRecord(qas[i]);
      expanded := expanded + rows;
    }
    assert qas[..|qas|] == qas;
  }

  /** The body of the loop of `load_data` for one record: its `kb_*` fields are reset;
      a record without relations is itself the one row, any other one gives the rows of
      the sources in turn. */
  method ExpandRecord(record: Row) returns (rows: seq<Row>)
    ensures rows == Expand(record.base)
  {
    var qa := record.(kbRelation := None, kbRelationCardinality := 0, kbRelationSource := None);
    if qa.base.wikidataRelations == [] && qa.base.dbpediaRelations == [] {
      return [qa];
    }
    rows := [];
    for s := 0 to |Sources|
      invariant rows == SourcesRows(qa.base, s)
    {
      var more := ExpandSource(qa, Sources[s]);
      rows := rows + more;
    }
  }

  /** The innermost loop of `load_data`, for one source of the record `qa`: a copy of the
      record per contributed relation, with its `kb_*` fields set to that relation, its
      cardinality and the source. */
  method ExpandSource(qa: Row, source: string) returns (rows: seq<Row>)
    ensures rows == SourceRows(qa.base, source, SourceRelations(qa.base.wikidataRelations, qa.base.dbpediaRelations, source))
  {
    var relations := SourceRelations(qa.base.wikidataRelations, qa.base.dbpediaRelations, source);
    var name := Lookup(relations, "name");
    if Truthy(name) {
      relations := [("name", name.value)];
    }
    ghost var spec := SourceRows(qa.base, source, SourceRelations(qa.base.wikidataRelations, qa.base.dbpediaRelations, source));
    assert relations == Contributed(SourceRelations(qa.base.wikidataRelations, qa.base.dbpediaRelations, source));
    rows := [];
    for j := 0 to |relations|
      invariant rows == spec[..j]
    {
      var qac := qa;
      qac := qac.(kbRelation := Some(relations[j].0));
      qac := qac.(kbRelationCardinality := relations[j].1);
      qac := qac.(kbRelationSource := Some(source));
      assert spec[..j + 1] == spec[..j] + [qac];
      rows := rows + [qac];
    }
    assert spec[..|relations|] == spec;
  }

  /** A record without relations gives exactly one row: itself, with no relation,
      cardinality 0 and no source. */
  lemma NoRelationsRow(record: Row)
    requires NoRelations(record.base)
    ensures ExpandAll([record]) == [record.(kbRelation := None, kbRelationCardinality := 0, kbRelationSource := None)]
  {
    assert [record][..0] == [];
  }

  /** A source whose map has a truthy `name` entry contributes only the `name` row; any
      other source contributes one row per relation of its map, in map order. */
  lemma SourceRowsMeaning(base: Base, source: string, relations: Relations)
    ensures var rows := SourceRows(base, source, relations);
      && (Truthy(Lookup(relations, "name")) ==>
            rows == [Row(base, Some("name"), Lookup(relations, "name").value, Some(source))])
      && (!Truthy(Lookup(relations, "name")) ==>
            |rows| == |relations| &&
            forall j :: 0 <= j < |rows| ==> rows[j] == Row(base, Some(relations[j].0), relations[j].1, Some(source)))
  {
  }

  /** A source contributes a row exactly when its map is not empty. */
  lemma ContributedNonEmpty(relations: Relations)
    ensures |Contributed(relations)| > 0 <==> relations != []
  {
    if relations != [] && Truthy(Lookup(relations, "name")) {
      assert |Contributed(relations)| == 1;
    }
  }

  /** What a record expands to: at least one row; every row carries the record's other
      fields unchanged; the only row without a source is the record itself when it has no
      relations; otherwise the first rows, one per contributed wikidata relation, come from
      wikidata and all the others from dbpedia. */
  lemma ExpandShape(base: Base)
    ensures var rows := Expand(base);
      && |rows| >= 1
      && (forall j :: 0 <= j < |rows| ==> rows[j].base == base)
      && (NoRelations(base) <==> rows[0].kbRelationSource == None)
      && (!NoRelations(base) ==>
            |rows| == |Contributed(base.wikidataRelations)| + |Contributed(base.dbpediaRelations)| &&
            forall j :: 0 <= j < |rows| ==>
              rows[j].kbRelationSource == if j < |Contributed(base.wikidataRelations)| then Some("wikidata") else Some("dbpedia"))
  {
    ContributedNonEmpty(base.wikidataRelations);
    ContributedNonEmpty(base.dbpediaRelations);
    var w := SourceRows(base, "wikidata", base.wikidataRelations);
    var d := SourceRows(base, "dbpedia", base.dbpediaRelations);
    assert SourcesRows(base, |Sources|) == w + d by {
      assert SourcesRows(base, 1) == w;
    }
  }

  /** The rows of concatenated record sequences are the concatenated rows: the expansion
      keeps the records' order. */
  lemma {:induction false} ExpandAllAppend(a: seq<Row>, b: seq<Row>)
    ensures ExpandAll(a + b) == ExpandAll(a) + ExpandAll(b)
    decreases |b|
  {
    if b == [] {
      assert a + b == a;
    } else {
      var b', last := b[..|b| - 1], b[|b| - 1];
      assert (a + b)[..|a + b| - 1] == a + b';
      assert (a + b)[|a + b| - 1] == last;
      ExpandAllAppend(a, b');
      var tail := Expand(last.base);
      calc {
        ExpandAll(a + b);
        ExpandAll(a + b') + tail;
        (ExpandAll(a) + ExpandAll(b')) + tail;
        { Associative(ExpandAll(a), ExpandAll(b'), tail); }
        ExpandAll(a) + (ExpandAll(b') + tail);
        ExpandAll(a) + ExpandAll(b);
      }
    }
  }

  /** The rows of record i lie exactly between the rows of the records before it and the
      rows of the records after it. */
  lemma ExpandAllAt(qas: seq<Row>, i: nat)
    requires i < |qas|
    ensures ExpandAll(qas) == ExpandAll(qas[..i]) + Expand(qas[i].base) + ExpandAll(qas[i + 1..])
  {
    var before, at, after := qas[..i], [qas[i]], qas[i + 1..];
    SplitAt(qas, i);
    ExpandAllAppend(before + at, after);
    ExpandAllAppend(before, at);
    assert ExpandAll(at) == Expand(qas[i].base) by {
      assert at[..0] == [];
    }
  }
  /** No record is dropped: there are at least as many rows as records. */
  lemma {:induction false} ExpandAllLength(qas: seq<Row>)
    ensures |ExpandAll(qas)| >= |qas|
  {
    if qas != [] {
      ExpandAllLength(qas[..|qas| - 1]);
      ExpandShape(qas[|qas| - 1].base);
    }
  }
}
