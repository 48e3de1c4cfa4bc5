/**
 * The question–answer record the evaluation scripts pass around. In the source it
 * is a JSON object read from a `.jsonl` file and updated in place; here it is a
 * class whose fields are the keys the scripts read and write.
 */
module Records {
  import opened Wrappers

  /** One entry of `retrieved_qas`: the answer phrasings of a retrieved QA pair and its score. */
  datatype RetrievedQa = RetrievedQa(answer: seq<string>, score: real)

  /** A knowledge-base relation map (`wikidata_relations`, `dbpedia_relations`): relation
      name to cardinality, in the order the JSON object lists them. A missing map is empty. */
  type Relations = seq<(string, int)>

  /** The cut-offs k of the EM@k scores. */
  const Cutoffs: seq<nat> := [1, 5, 10, 50]

  /** `relations.get(key)`; keys are distinct in a JSON object, so the first entry is the one. */
  function Lookup(relations: Relations, key: string): (r: Option<int>)
    ensures r.Some? <==> exists i :: 0 <= i < |relations| && relations[i].0 == key
    ensures r.Some? ==> (key, r.value) in relations
  {
    if relations == [] then None
    else if relations[0].0 == key then Some(relations[0].1)
    else Lookup(relations[1..], key)
  }

  /** `qa.get(f'{source}_relations', {})` for the two knowledge bases records carry; any
      other source has no relation map. */
  function SourceRelations(wikidataRelations: Relations, dbpediaRelations: Relations, source: string): Relations {
    if source == "wikidata" then wikidataRelations
    else if source == "dbpedia" then dbpediaRelations
    else []
  }

  /** Python truthiness of `relations.get(key)`: present and non-zero. */
  predicate Truthy(value: Option<int>) {
    value.Some? && value.value != 0
  }

  class QaRecord {
    var question: string
    var answer: seq<string>
    var answerAlias: seq<string>
    var answerOriginal: seq<string>
    var id: Option<int>
    var retrievedQas: seq<RetrievedQa>
    var retrievedQaScore: real
    /** `em_1` … `em_50`, keyed by the cut-off. */
    var em: map<nat, int>
    /** `em_n_1` … `em_n_50`, keyed by the cut-off. */
    var emN: map<nat, int>
    var wikidataRelations: Relations
    var dbpediaRelations: Relations

    /** A record as a dataset line gives it: question, answers and relation maps. */
    constructor (question: string, answer: seq<string>, wikidataRelations: Relations, dbpediaRelations: Relations)
      ensures this.question == question && this.answer == answer
      ensures this.wikidataRelations == wikidataRelations && this.dbpediaRelations == dbpediaRelations
      ensures answerAlias == [] && answerOriginal == [] && id == None && retrievedQas == []
      ensures em == map[] && emN == map[]
    {
      this.question := question;
      this.answer := answer;
      this.wikidataRelations := wikidataRelations;
      this.dbpediaRelations := dbpediaRelations;
      answerAlias, answerOriginal, id, retrievedQas, retrievedQaScore := [], [], None, [], 0.0;
      em, emN := map[], map[];
    }
  }
}
