# Answer equivalence and EM@k scoring of 2paq, in Dafny

2paq augments open-domain question-answering datasets with knowledge-base relations. It then measures how well a retriever over generated question-answer pairs answers the questions. This project models the parts of the repository that decide the numbers it reports, and proves properties of them:

- **The answer-equivalence engine** (`utils/evaluation_utils.py`):
  - the SQuAD-style normaliser and plain exact match;
  - the date equivalence cascade over a grammar model of `pendulum.from_format`;
  - the amount extractor over a small table model of `number_parser.parse`, with exact decimals in place of floats;
  - the orchestrating normalised match;
  - the reductions over ground truths (`ems_norm`, `ems`, `metric_max_over_ground_truths`).
- **EM@k scoring** (`evaluation/experiment_evaluation.py`, `evaluation/baseline_evaluation.py`):
  - `augment_qa_em_scores` sets a 0/1 exact flag `em_k` and a normalised flag `em_n_k` for the cut-offs 1, 5, 10 and 50. It ORs over the first k retrieved entries.
  - `get_qas_em` splits the augmented answers into originals and aliases.
  - `evaluate` turns the flags into percentages.
  - `hits_and_misses` classifies records against the baseline run.
  - the baseline script's per-line loop.
- **The row expansion of `load_data`** (`stats/dataset_stats.py`): one row per knowledge-base relation of a record.
- **The title cleaners of the movie extractor** (`generation/movie_extractor.py`).

## How the model is built

The model takes the form of the code it models:

- **Pure Python helpers** become Dafny functions; their properties are lemmas.
- **Regex substitutions** are scans over the original string, as `re.sub` works:
  - a word boundary `\b` is decided on the original text;
  - a match is replaced and the scan resumes after it.
- **The records** the evaluation scripts update in place (`qa` dicts) are objects of the class `Records.QaRecord`. Scoring writes their fields under `modifies` frames.
- The loops of `augment_qa_em_scores`, `get_qas_em`, `evaluate`, `hits_and_misses`, the baseline `evaluate`, `try_parsing_date`, `metric_max_over_ground_truths` and `load_data` are methods with loops. Each is proved equal to a specification function, and the properties are lemmas about those functions.
  These loop invariants carry most of the proof work: the flag maps reached so far (`Reached`, `FlagsUpTo`), the loaded prefix equal to `Expected`, the partial `Select` of the classification, and `ExpandAll` of the records read so far. These loops are the methods `Retrieval.AugmentWith`, `ExperimentEvaluation.GetQasEm`, `ExperimentEvaluation.Evaluate`, `HitsAndMisses.ClassifyViews`, `BaselineEvaluation.EvaluateWith` and `DatasetStats.LoadData`. Each is proved equal to its specification function by those invariants, and they hold the substance of the proofs. The literal scenarios in `EquivalenceCases` and `AmountCases` only instantiate the general lemmas on the repository's own test inputs.
- **Python exceptions** are `Result`/`Outcome` values:
  - `ValueError` from `max([])`;
  - `IndexError` on an empty retrieval list or an answer list without a first phrasing;
  - `KeyError` on a missing flag;
  - `ZeroDivisionError` on an empty record list.

  A precondition is stated only where the code itself cannot fail.

Modules:

- `Wrappers`: Option, Result and the 0/1 flag of a boolean.
- `Text`: ASCII character classes, `split`, `' '.join`, `strip`, decimal numerals.
- `WordRemoval`: whole-word alternation removal, shared by `normalize_answer` and `exact_match_date`.
- `Normalize`: `normalize_answer` and `exact_match_score`.
- `Dates`: `potential_year`, `try_parsing_date`, `exact_match_date`.
- `NumberWords`: the number-word table and `parse`.
- `Amounts`: `extract_amount` and `exact_match_amount`.
- `Equivalence`: `exact_match_score_normalized`, `ems_norm`, `ems`, `metric_max_over_ground_truths`.
- `Records`: the record class and relation maps.
- `Retrieval`: the k-loop shared by both scoring scripts.
- `ExperimentEvaluation`, `HitsAndMisses`, `BaselineEvaluation`, `DatasetStats`, `MovieExtractor`: one per remaining core script.
- `AmountCases` and `EquivalenceCases`: the repository's test scenarios.
- `Seqs`: three sequence facts.

Where the repository's prose description and its code differ, the model follows the code:

- **The quantity-question test** of `exact_match_score_normalized` is the case-sensitive regex `^how (many|much) `. The question is not lower-cased, so `"How many …"` does not enable the amount path (see `Equivalence.QuantityQuestions`).
- **The second substitution of `clean_movie_text`** can never match, because its `$` is followed by a literal space. The model proves it leaves every text unchanged (`MovieExtractor.AnchoredIsIdentity`).

## Model

Rows for `AmountCases` and `EquivalenceCases` state single scenarios from the repository's tests. Each is an instance of the general lemmas above it, not a further property.

| member | source | states |
|---|---|---|
| Normalize.Lower | utils/evaluation_utils.py:23-24 | lower-casing keeps the length and maps every character to its ASCII lower case |
| Normalize.LowerAppend | utils/evaluation_utils.py:23-24 | lower-casing distributes over concatenation, and lower-casing twice is lower-casing once |
| Normalize.RemovePunc | utils/evaluation_utils.py:19-21 | the result holds no ASCII punctuation, is no longer than the input and is made of the input's characters (its exact content is `RemovePuncFilter`) |
| Normalize.RemovePuncFilter | utils/evaluation_utils.py:19-21 | dropping punctuation distributes over concatenation and keeps a single character exactly when it is not ASCII punctuation: the result is exactly the non-punctuation characters, in order |
| Normalize.WhiteSpaceFix | utils/evaluation_utils.py:16-17 | the result's only whitespace is single spaces between non-space characters (its exact content is `WhiteSpaceFixSplit` with `WhiteSpaceFixToken`) |
| Normalize.WhiteSpaceFixSplit | utils/evaluation_utils.py:16-17 | re-spacing a text cut at any whitespace character gives the re-spaced sides joined by one space, an empty side dropped |
| Normalize.WhiteSpaceFixToken | utils/evaluation_utils.py:16-17 | a text without whitespace is left as it is; with `WhiteSpaceFixSplit`, the result is exactly the text's tokens joined by single spaces |
| WordRemoval.RemoveWords | utils/evaluation_utils.py:13-14 | removing whole words never lengthens the text; each character left is a space or one of the input's (its exact content is `RemoveWordsSplit` with `RemoveWordsRun`) |
| WordRemoval.RemoveWordsSplit | utils/evaluation_utils.py:13-14 | the substitution keeps every non-word character and works on the two sides of it independently |
| WordRemoval.RemoveWordsRun | utils/evaluation_utils.py:13-14 | a run of word characters becomes one space exactly when it is one of the listed words and is kept otherwise; with `RemoveWordsSplit`, exactly the whole-word matches are replaced, each by one space |
| WordRemoval.RemoveWordsFree | utils/evaluation_utils.py:13-14 | after the substitution no listed word stands as a whole word anywhere |
| WordRemoval.RemoveWordsIdentity | utils/evaluation_utils.py:13-14 | a text with no whole-word occurrence of a listed word is left unchanged |
| WordRemoval.WordMatchIff | utils/evaluation_utils.py:14 | the boundary-word-boundary pattern matches at i exactly when the word occurs there as a whole word |
| Text.Words | utils/evaluation_utils.py:17 | `split()` gives non-empty tokens containing no whitespace (which tokens is `WordsSplit` with `WordsOfToken`) |
| Text.WordsSplit | utils/evaluation_utils.py:17 | `split()` cuts at every whitespace character: the tokens of a text cut at one are those of the left side followed by those of the right side |
| Text.WordsOfToken | utils/evaluation_utils.py:17 | a non-empty text without whitespace is a single token and the empty text has none; with `WordsSplit`, the tokens are exactly the maximal non-whitespace runs, in order |
| Text.JoinAppend | utils/evaluation_utils.py:17 | `' '.join` of two token lists one after the other is the join of each, joined by one space, an empty side dropped |
| Text.JoinWordsOfClean | utils/evaluation_utils.py:17 | splitting a text with clean single spacing and joining it back gives the text |
| Text.Strip | utils/evaluation_utils.py:60 | `strip()` yields a slice of the input with whitespace only before and after it, and no whitespace at either end |
| Text.StripNoOp | utils/evaluation_utils.py:60 | a text with no whitespace at either end is its own `strip()` |
| Normalize.NormalizeAnswer | utils/evaluation_utils.py:12-26 | the normal form is lower-case, has no punctuation, no whole-word article, no article token and clean spacing, and the result is no longer than the input |
| Normalize.NormalFormFixed | utils/evaluation_utils.py:12-26 | a text already in normal form is its own normalisation |
| Normalize.NormalizeIdempotent | utils/evaluation_utils.py:12-26 | normalising twice equals normalising once |
| Normalize.ExactMatchScoreProperties | utils/evaluation_utils.py:29-30 | exact match is reflexive, symmetric and transitive, and its result does not depend on the question |
| Normalize.ExactMatchNormalForm | utils/evaluation_utils.py:29-30 | against a normal-form ground truth, a prediction matches exactly when it normalises to that ground truth |
| Normalize.NormalizeAtSpace | utils/evaluation_utils.py:12-26 | normalising a text cut at any whitespace character normalises the two sides and joins them by one space, an empty side dropped |
| Normalize.NormalizeArticle | utils/evaluation_utils.py:12-26 | a lone a, an or the, in any case, normalises to the empty answer |
| Normalize.NormalizeIgnoresCase | utils/evaluation_utils.py:12-30 | an answer normalises as its lower-cased form does, so answers equal up to case match exactly |
| Normalize.NormalizeDropsPunct | utils/evaluation_utils.py:12-30 | inserting an ASCII punctuation character anywhere leaves the normalisation and the exact match unchanged |
| Normalize.NormalizeIgnoresSpacing | utils/evaluation_utils.py:12-30 | any whitespace character counts as a space, a run of two counts as one, whitespace at either end is dropped, and exact match agrees |
| Normalize.NormalizeDropsArticle | utils/evaluation_utils.py:12-30 | a whole-word article in any case, between whitespace or at either end, leaves the normalisation and the exact match unchanged |
| Dates.MonthNumberOfName | utils/evaluation_utils.py:71 | every English month name reads back as its own month, so no two months share a name |
| Dates.TokenizeFormats | utils/evaluation_utils.py:71 | each of the five format strings splits into its day, month, year and literal tokens |
| Dates.FromFormat | utils/evaluation_utils.py:51 | a successful parse is a valid calendar date |
| Dates.TryParsingDate | utils/evaluation_utils.py:47-54 | the loop returns the date of the first format that reads the text, or fails when none does |
| Dates.FirstParseSpec | utils/evaluation_utils.py:48-54 | the cascade succeeds iff some format reads the text; it then returns that format's date, and every earlier format fails |
| Dates.FirstParseAt | utils/evaluation_utils.py:48-54 | when all formats before j fail and format j reads the text, the cascade gives format j's date |
| Dates.RenderParse | utils/evaluation_utils.py:51 | writing a valid date in a format and parsing it with that format gives the date, with the fields the format omits set to 1 |
| Dates.EarlierFormatFails | utils/evaluation_utils.py:71 | a date written in one format is read by no format that comes before it in the cascade |
| Dates.PredictionParse | utils/evaluation_utils.py:71 | the five-format prediction cascade reads a written date at the granularity it was written in |
| Dates.FullDateParse | utils/evaluation_utils.py:76 | the full-date cascade reads ground truths written with day, month and year, and rejects month-year and year-only ones |
| Dates.ExactMatchDate | utils/evaluation_utils.py:57-91 | texts equal after removing a/an/the/in/on and stripping always match; otherwise a match needs both texts to end in four digits and the prediction to parse |
| Dates.RenderStripped | utils/evaluation_utils.py:59-67 | a written date passes the word removal unchanged and ends in a four-digit year, so it reaches the parse |
| Dates.DateCascade | utils/evaluation_utils.py:57-91 | two written dates match exactly when they agree on the fields of the ground truth's format, where a prediction without day or month counts them as 1 |
| Dates.GroundTruthWritten | utils/evaluation_utils.py:75-91 | a ground truth is compared at full-date, then month-year, then year granularity, on the fields its format carries |
| NumberWords.WordValue | utils/evaluation_utils.py:96 | a word has a number exactly when it is in one of the number-word tables |
| NumberWords.ParseNoLetters | utils/evaluation_utils.py:96 | number conversion leaves text without letters unchanged |
| NumberWords.ParseNumberWord | utils/evaluation_utils.py:96 | a number word outside a compound becomes its decimal numeral |
| NumberWords.ParseCompound | utils/evaluation_utils.py:96 | a tens word joined to a unit word by a space or hyphen becomes the numeral of their sum |
| Amounts.KeepNumeric | utils/evaluation_utils.py:97 | the residue holds only digits and dots (its exact content is `KeepNumericFilter`) |
| Amounts.KeepNumericFilter | utils/evaluation_utils.py:97 | the deletion distributes over concatenation and keeps a single character exactly when it is a digit or a dot: the residue is exactly the input's digits and dots, in order |
| Amounts.KeepNumericIdentity | utils/evaluation_utils.py:97 | a text of digits and dots is its own residue |
| Amounts.FloatOfAccepts | utils/evaluation_utils.py:99-103 | `float` accepts a digits-and-dots residue exactly when it is a valid decimal: at least one digit and at most one dot |
| Amounts.FloatOfValue | utils/evaluation_utils.py:100 | an accepted residue's value is its digits read as an integer over ten to the number of fraction digits |
| Amounts.ExtractAmountSpec | utils/evaluation_utils.py:94-103 | `extract_amount` is None exactly when the residue is no valid decimal, and otherwise the residue's exact value |
| Amounts.ExtractNumeral | utils/evaluation_utils.py:94-103 | an amount written in digits reads back as itself |
| Amounts.ExactMatchAmountProperties | utils/evaluation_utils.py:106-109 | a match needs both amounts present; the relation is symmetric and transitive, and a text matches itself iff it holds an amount |
| Amounts.NoDigitNoMatch | utils/evaluation_utils.py:106-109 | a text whose residue holds no digit matches no text on amounts, on either side |
| AmountCases.LetterlessAmount | utils/evaluation_utils.py:94-103 | a text without letters whose residue is the numeral of n has amount n |
| AmountCases.DigitsDiffer | tests/test_evaluation_utils.py:14 | `25` and `250` do not match |
| AmountCases.WordsAndDigitsDiffer | tests/test_evaluation_utils.py:15 | `twenty five` and `250` do not match |
| AmountCases.CompoundMatches | tests/test_evaluation_utils.py:16 | `twenty five` matches `25` |
| AmountCases.CommaIgnored | tests/test_evaluation_utils.py:17 | `1852` matches `1,852` |
| AmountCases.UnitIgnored | tests/test_evaluation_utils.py:18 | `500 years` matches `500` |
| AmountCases.HyphenIgnored | tests/test_evaluation_utils.py:19 | `twenty-two` matches `twenty two` |
| AmountCases.ChaptersIgnored | tests/test_evaluation_utils.py:20 | `18 chapters` matches `18` |
| AmountCases.WordMatchesDigit | tests/test_evaluation_utils.py:21 | `8` matches `eight` |
| AmountCases.IslandsIgnored | tests/test_evaluation_utils.py:22 | `607 islands and islets` matches `607` |
| AmountCases.OrdinalMatches | tests/test_evaluation_utils.py:23 | `fifth title` matches `5` |
| AmountCases.AboutIgnored | tests/test_evaluation_utils.py:24 | `2,700` matches `about 2,700` |
| AmountCases.AcresIgnored | tests/test_evaluation_utils.py:25 | `1,800` matches `1,800 acres` |
| AmountCases.WordBeforeUnit | tests/test_evaluation_utils.py:26 | `five times` matches `5` |
| AmountCases.CapitalsIgnored | tests/test_evaluation_utils.py:27 | `2 Titles` matches `two` |
| AmountCases.NoAmountNoMatch | tests/test_evaluation_utils.py:28 | `test` and `test test` hold no amount and do not match |
| Equivalence.NormalizedCascade | utils/evaluation_utils.py:112-124 | the normalised match is text match or date match, or amount match when the question is a quantity question |
| Equivalence.ExactImpliesNormalized | utils/evaluation_utils.py:114-115 | exact match implies normalised match, and the normalised match is reflexive |
| Equivalence.QuantityQuestions | utils/evaluation_utils.py:120 | the quantity test is case-sensitive, needs the space after `how`, and fails on the default question `""` |
| Equivalence.DefaultQuestion | utils/evaluation_utils.py:113-124 | with the default question an amount match alone never makes a normalised match |
| Equivalence.MaxOf | utils/evaluation_utils.py:152 | `max` over booleans raises `ValueError` exactly on the empty list, and is otherwise true iff some element is |
| Equivalence.EmsNorm | utils/evaluation_utils.py:127-128 | fails exactly on no ground truths, and is otherwise true iff some ground truth matches under the normalised match |
| Equivalence.Ems | utils/evaluation_utils.py:131-138 | normalised: some answer or alias matches under the normalised match; otherwise some answer matches exactly; fails exactly when that list is empty |
| Equivalence.AsList | utils/evaluation_utils.py:144-145 | a bare prediction becomes a one-element list; a list is kept |
| Equivalence.MetricMaxOverGroundTruths | utils/evaluation_utils.py:141-152 | the nested loop then `max` give the result of `MetricMax`: a `ValueError` when there is no pair, otherwise whether some prediction and ground-truth pair scores |
| Equivalence.ScoresMax | utils/evaluation_utils.py:141-152 | `max` over the appended scores equals the any-pair specification, failure included |
| Equivalence.ScoresAny | utils/evaluation_utils.py:147-150 | the score list holds a true exactly when some pair scores |
| Equivalence.ScoresLength | utils/evaluation_utils.py:147-150 | one score is appended per pair |
| Equivalence.SingleIsList | utils/evaluation_utils.py:144-145 | a bare prediction scores like its one-element list: true iff it matches some ground truth |
| Equivalence.MetricMaxExample | tests/test_evaluation_utils.py:35 | `Los Angeles Dodgers` matches itself, with exact match as the metric |
| Equivalence.EmsExactImpliesNormalized | utils/evaluation_utils.py:131-138 | when `ems` holds, `ems` with `normalized=True` holds too |
| EquivalenceCases.YearMatchesYear | tests/test_evaluation_utils.py:5 | `2021` matches `2021` |
| EquivalenceCases.FullDateMatchesYear | tests/test_evaluation_utils.py:6 | `December 2, 2021` matches `2021` |
| EquivalenceCases.FullDateMissesOtherYear | tests/test_evaluation_utils.py:7 | `December 2, 2021` does not match `2020` |
| EquivalenceCases.FullDateMatchesMonth | tests/test_evaluation_utils.py:8 | `December 2, 2021` matches `December 2021` |
| EquivalenceCases.YearMissesMonth | tests/test_evaluation_utils.py:9 | `2021` does not match `December 2021`: a year-only prediction falls in January |
| EquivalenceCases.MonthMatchesMonth | tests/test_evaluation_utils.py:10 | `October 2021` matches itself |
| Retrieval.AnyRetrieved | evaluation/experiment_evaluation.py:57-61 | the comprehension over `retrieved_qas[:k]` and its `any` give the retrieval score: fails with `IndexError` on an entry without a first phrasing, or with `ValueError` when there are no ground truths, otherwise says whether a first phrasing matches |
| Retrieval.FlagsMeaning | evaluation/experiment_evaluation.py:56-69 | flags are written for exactly the cut-offs 1, 5, 10 and 50; each is 0 or 1, and 1 exactly on a hit among the first k entries |
| Retrieval.AugmentWith | evaluation/experiment_evaluation.py:55-71 | under any pair of metrics: the loop's outcome is its first failure; on success the score is the first entry's, and both flag maps gain their four flags |
| Retrieval.ScoreCutoff | evaluation/experiment_evaluation.py:57-69 | one pass of the k-loop either fails with the loop's failure, or writes the first score and extends both flag maps by the cut-off's flag |
| Retrieval.HitMonotone | evaluation/experiment_evaluation.py:57-61 | a hit among the first k entries is a hit among the first k' entries for every k' ≥ k |
| Retrieval.FlagsMonotone | evaluation/experiment_evaluation.py:56-69 | em_1 ≤ em_5 ≤ em_10 ≤ em_50 |
| Retrieval.Heads | evaluation/experiment_evaluation.py:60 | the scoring sees only the first phrasing of each of the first k entries, or that it has none |
| Retrieval.HeadsDecide | evaluation/experiment_evaluation.py:57-61 | lists with the same first phrasings in their first k entries score alike at k |
| Retrieval.HeadsDecideRecord | evaluation/experiment_evaluation.py:55-71 | a record's outcome and flags depend only on the first phrasings of its first 50 entries |
| Retrieval.ExactHitIsNormalizedHit | evaluation/experiment_evaluation.py:57-69 | an exact hit against answers that all lie in a larger list is a normalised hit against that list |
| Retrieval.ExactFlagsBelowNormalized | evaluation/experiment_evaluation.py:56-69 | em_k ≤ em_n_k at every cut-off when the exact answers all lie in the normalised ones |
| Records.Lookup | stats/dataset_stats.py:22 | a key's value is found exactly when the map has an entry with that key, and then it is that entry's value |
| ExperimentEvaluation.AugmentQaEmScores | evaluation/experiment_evaluation.py:55-71 | normalised flags against answers and aliases, exact flags against answers; first score; the loop's failure |
| ExperimentEvaluation.ExactBelowNormalized | evaluation/experiment_evaluation.py:57-69 | em_k ≤ em_n_k for every record and cut-off |
| ExperimentEvaluation.DifferenceMembers | evaluation/experiment_evaluation.py:92 | the aliases are exactly the augmented answers that are not originals, without repeats |
| ExperimentEvaluation.ExpectedShape | evaluation/experiment_evaluation.py:88-96 | a loaded record holds the original answers, an alias list disjoint from them, the retrieval list and its first score, and the four flag keys of each family |
| ExperimentEvaluation.LoadedExactBelowNormalized | evaluation/experiment_evaluation.py:88-96 | in every record `get_qas_em` loads, em_k ≤ em_n_k |
| ExperimentEvaluation.LoadRecord | evaluation/experiment_evaluation.py:89-95 | one record gets its aliases, its original answers and its results, and then is scored as `Expected` says |
| ExperimentEvaluation.GetQasEm | evaluation/experiment_evaluation.py:74-97 | the loop over the zipped inputs ends with its first failure; on success every loaded record is its input record, scored as `Expected` says |
| ExperimentEvaluation.Rows | evaluation/experiment_evaluation.py:107 | the flag map of the family the comprehension reads, for each record |
| ExperimentEvaluation.Percentage | evaluation/experiment_evaluation.py:107 | the comprehension, the sum and the division give `Rate` |
| ExperimentEvaluation.Percentages | evaluation/experiment_evaluation.py:106-108 | the loop over the cut-offs gives `Rates` |
| ExperimentEvaluation.Evaluate | evaluation/experiment_evaluation.py:100-116 | the two loops of `evaluate` give `EvaluationOf` the records' flags |
| ExperimentEvaluation.TotalCounts | evaluation/experiment_evaluation.py:107 | with 0/1 flags the sum is the number of flagged records, between 0 and the number of records |
| ExperimentEvaluation.RateOfFlags | evaluation/experiment_evaluation.py:107 | EM@k is 100 times the flagged records over all records, and lies in [0, 100] |
| ExperimentEvaluation.RateBelow | evaluation/experiment_evaluation.py:106-112 | pointwise smaller flags give a smaller percentage |
| ExperimentEvaluation.RatesMeaning | evaluation/experiment_evaluation.py:106-112 | the loop succeeds iff every cut-off's rate does, and then maps exactly its cut-offs to their rates |
| ExperimentEvaluation.RatesOfFlags | evaluation/experiment_evaluation.py:106-112 | on flag rows the four percentages exist, lie in [0, 100], are the flagged share, and do not decrease in k |
| ExperimentEvaluation.EvaluationOfFlags | evaluation/experiment_evaluation.py:106-112 | the evaluation of flag rows has both families at all four cut-offs, each the flagged share in [0, 100], non-decreasing in k |
| ExperimentEvaluation.EvaluationExactBelowNormalized | evaluation/experiment_evaluation.py:106-112 | EM@k ≤ normalised EM@k when no record's exact flag exceeds its normalised one |
| ExperimentEvaluation.LoadedRows | evaluation/experiment_evaluation.py:88-112 | the loaded records give flag rows whose exact flags never exceed the normalised ones, which is what `evaluate` reads |
| ExperimentEvaluation.EvaluationFailure | evaluation/experiment_evaluation.py:106-112 | no records raise `ZeroDivisionError`; otherwise `evaluate` fails exactly when a record lacks a flag key, with `KeyError` |
| ExperimentEvaluation.RatesKeyError | evaluation/experiment_evaluation.py:107 | on some records the loop fails exactly when a record lacks one of the keys |
| HitsAndMisses.RelationNameShape | evaluation/experiment_evaluation.py:161-163 | the derived name is no longer than the relation and holds no underscore; without `_el` it is the relation with its underscores turned into spaces |
| HitsAndMisses.GenreEl | evaluation/experiment_evaluation.py:163 | `genre_el` is looked up as `genre` |
| HitsAndMisses.CombinedOf | evaluation/experiment_evaluation.py:157-159 | the combined record carries the baseline's retrieval list, and the id i + 1 unless the record brings its own |
| HitsAndMisses.Classify | evaluation/experiment_evaluation.py:147-170 | fails with `KeyError` exactly when a zipped record lacks `em_n_5`; otherwise returns the hits, misses and mistakes that `Select` defines |
| HitsAndMisses.ClassifyViews | evaluation/experiment_evaluation.py:156-170 | the same loop over value snapshots of the records |
| HitsAndMisses.SelectMembers | evaluation/experiment_evaluation.py:156-170 | a combined record is in a list exactly when some zipped pair of that kind produced it |
| HitsAndMisses.KindsExclusive | evaluation/experiment_evaluation.py:164-170 | no pair is of two kinds: hits, misses and mistakes are disjoint |
| HitsAndMisses.SelectedAtMostAll | evaluation/experiment_evaluation.py:164-170 | together the three lists are no longer than the zipped records |
| HitsAndMisses.HitsAre | evaluation/experiment_evaluation.py:167-168 | a pair with em_n_5 set for the relation and not for the baseline is a hit, with id i + 1 when the record brings no id of its own |
| BaselineEvaluation.AugmentQaEmScores | evaluation/baseline_evaluation.py:39-53 | normalised flags against the augmented answers, exact flags against the original answers; first score; the loop's failure |
| BaselineEvaluation.ScoreLine | evaluation/baseline_evaluation.py:73-78 | a line gets its original answers, the id i + 1 and its results, and is written as `Scored` says |
| BaselineEvaluation.EvaluateWith | evaluation/baseline_evaluation.py:73-81 | under any metrics: the loop ends with its first failure; the records before it are written, each as `Scored` says, and the failing one is not |
| BaselineEvaluation.Evaluate | evaluation/baseline_evaluation.py:55-81 | the same with the repository's metrics |
| BaselineEvaluation.FirstFailureMeaning | evaluation/baseline_evaluation.py:73-78 | the loop passes iff every line's scoring does; otherwise it fails with some line's exception |
| BaselineEvaluation.ScoredShape | evaluation/baseline_evaluation.py:40-51 | a written record has id i + 1, the first score, and at each cut-off 0/1 flags set exactly on a hit among the first k: exact against the originals, normalised against the augmented answers; both are monotone in k |
| BaselineEvaluation.ScoredExactBelowNormalized | evaluation/baseline_evaluation.py:42-48 | when the original answers lie among the augmented ones, em_k ≤ em_n_k at every cut-off |
| DatasetStats.LoadData | stats/dataset_stats.py:11-29 | the loop builds the rows `ExpandAll` defines, record after record |
| DatasetStats.ExpandRecord | stats/dataset_stats.py:13-29 | one record's loop body gives exactly the rows `Expand` defines |
| DatasetStats.ExpandSource | stats/dataset_stats.py:21-29 | one source gives a copy of the record per contributed relation, labelled with the relation, its cardinality and the source |
| DatasetStats.NoRelationsRow | stats/dataset_stats.py:13-19 | a record without relations gives one row: itself, with no relation, cardinality 0 and no source |
| DatasetStats.SourceRowsMeaning | stats/dataset_stats.py:22-29 | a truthy `name` entry gives only the `name` row; otherwise one row per relation, in map order |
| DatasetStats.ContributedNonEmpty | stats/dataset_stats.py:22-24 | a source contributes a row exactly when its map is not empty |
| DatasetStats.ExpandShape | stats/dataset_stats.py:17-29 | at least one row; all rows carry the record's other fields; only a record without relations gives a source-less row; otherwise the wikidata rows come before the dbpedia rows |
| DatasetStats.ExpandAllAppend | stats/dataset_stats.py:12-29 | the rows of concatenated record lists are the concatenated rows, so the record order is kept |
| DatasetStats.ExpandAllAt | stats/dataset_stats.py:12-29 | record i's rows lie exactly between the rows of the records before it and of those after it |
| DatasetStats.ExpandAllLength | stats/dataset_stats.py:12-29 | no record is dropped: there are at least as many rows as records |
| Text.CharIndex | generation/movie_extractor.py:13 | the first index from i on that holds c, or the end of the text: `.` runs up to the first newline; the same search finds the decimal point of an amount |
| MovieExtractor.LastClose | generation/movie_extractor.py:13 | the greedy `.*` ends at the last `)` of the line, if there is one |
| MovieExtractor.EntitySpanRemoved | generation/movie_extractor.py:12-13 | on one line, the span from the first `(` to the last `)` after it is removed and the rest stripped |
| MovieExtractor.DropSpan | generation/movie_extractor.py:13 | at a `(` whose line has a last `)`, the substitution drops up to that `)` and goes on after it |
| MovieExtractor.EntityWithoutPair | generation/movie_extractor.py:12-13 | an entity with no `(` followed by a `)` is only stripped |
| MovieExtractor.KingKong | generation/movie_extractor.py:35 | `King Kong (1976 film)` cleans to `King Kong` |
| MovieExtractor.EntityStrippedAndShorter | generation/movie_extractor.py:12-13 | the cleaned entity has no whitespace at either end and is never longer than the input |
| MovieExtractor.DropShorter | generation/movie_extractor.py:13 | the parenthesis substitution never lengthens the text |
| MovieExtractor.ScanSkips | generation/movie_extractor.py:17-19 | a match at i is deleted and the scan resumes right after it |
| MovieExtractor.ScanWithoutMatch | generation/movie_extractor.py:17-19 | a substitution that meets no match keeps the text as it is |
| MovieExtractor.ScanShorter | generation/movie_extractor.py:17-19 | a deleting substitution never lengthens the text |
| MovieExtractor.ShowPhraseDropped | generation/movie_extractor.py:17 | `tv` or `netflix`, a space, a medium word and a space are deleted together, trailing space included |
| MovieExtractor.YearPhraseDropped | generation/movie_extractor.py:17 | four digits, a space, a medium word and a space are deleted together |
| MovieExtractor.AnchoredIsIdentity | generation/movie_extractor.py:18 | the second substitution returns its input unchanged: a space can never follow the end of the text |
| MovieExtractor.EpisodeNumberDropped | generation/movie_extractor.py:19 | `season` or `episode`, a space and the whole digit run after it are deleted |
| MovieExtractor.SubstitutedShorter | generation/movie_extractor.py:17-19 | the three substitutions never lengthen the text |
| MovieExtractor.TextStrippedAndShorter | generation/movie_extractor.py:16-21 | the cleaned text has no whitespace at either end and is never longer than the input |
| MovieExtractor.TextWithoutPatterns | generation/movie_extractor.py:16-21 | text with no show phrase and no season or episode number is only stripped |

## Left out

- I/O:
  - jsonl, json, CSV and TSV reading and writing (`utils/data.py`, `jsonlines`, pandas) are not modelled; the scripts' loops take the loaded contents as sequences.
  - `format_qa` and every `print` are not modelled;
  - `dump_json` in `evaluate` (evaluation/experiment_evaluation.py:115) is not modelled.
- The `:.2f` formatting in `evaluate` and the delta rounding in `generate_evaluation_table`: percentages are exact reals.
- `float(...)` rounding in `extract_amount`: amounts are exact decimals.
- `functools.lru_cache` and the disk cache `@cache('get_qas_em_2')`: they do not change results.
- `normalize_date` (utils/evaluation_utils.py:32-37): no function of the modelled evaluation core calls it (it is called only by the QA generators, utils/wikidata.py and the dataset augmenter); it depends on Python's `datetime.fromisoformat` and `strftime`.
- `pendulum.from_format` is a grammar model over the tokens `D`, `MMMM` and `YYYY` and literal characters. It assumes:
  - a whole-string match;
  - case-sensitive English month names;
  - greedy one-or-two-digit days and four-digit years from 1;
  - month and day defaulting to 1;
  - an invalid calendar date as a parse failure.

  pendulum's own behaviour is not part of this model.
- `number_parser.parse` is a table model:
  - units, teens, tens and the ordinals first to tenth;
  - tens plus unit compounds joined by a space or a hyphen;
  - lower-case words only.

  Scales such as `million` are left out. The test at tests/test_evaluation_utils.py:30-31 is commented out in the repository.
- Unicode: `\b`, `\d`, `str.lower`, `str.split` and `str.strip` are modelled on ASCII only.
- Normalize.RemovePunc: its own contract states only the shape of the result (no punctuation, no longer, characters of the input). That it keeps exactly the non-punctuation characters in order is proved separately by `Normalize.RemovePuncFilter`.
- Normalize.WhiteSpaceFix: its own contract states only the clean spacing of the result. That the result is exactly the tokens joined by single spaces is proved separately by `Normalize.WhiteSpaceFixSplit` and `Normalize.WhiteSpaceFixToken`.
- WordRemoval.RemoveWords: its own contract states only length and characters. That exactly the whole-word matches become spaces is proved separately by `WordRemoval.RemoveWordsSplit` and `WordRemoval.RemoveWordsRun`, and that none is left by `WordRemoval.RemoveWordsFree`.
- Text.Words: its own contract states only that the tokens are non-empty and free of whitespace. That they are exactly the maximal non-whitespace runs in order is proved separately by `Text.WordsSplit` and `Text.WordsOfToken`.
- Amounts.KeepNumeric: its own contract states only that the residue is digits and dots. That it is exactly the input's digits and dots in order is proved separately by `Amounts.KeepNumericFilter`.
- tests/test_evaluation_utils.py:35 passes `ems` as the metric, which raises a `TypeError` as written. `Equivalence.MetricMaxExample` states the intended case with exact match as the metric.
- ExperimentEvaluation.DifferenceMembers: `list(set(...) - set(...))` has an order Python leaves unspecified, so the model fixes one order. Its contract, and the alias part of `ExpectedShape`, state only membership and the absence of repeats.
- `get_qas_em` and `hits_and_misses` read the results and the baseline through other calls; the model takes the loaded records as arguments. `get_relations`, `split_results`, `load_evaluation`, `evaluate_all` and `generate_evaluation_table` are file enumeration and report generation, and are not modelled.
- `hits_and_misses` is modelled for the knowledge bases `wikidata` and `dbpedia`; any other `kb` value finds no relations.
- The combined record of `hits_and_misses` holds the id, the question, the fields scoring wrote, the relation maps and the baseline's retrieval list. Other fields of `**qa` are not carried.
- BaselineEvaluation.Scored: a line of the augmented dataset is assumed to carry no flags of its own. The written flag maps are then exactly the ones scoring sets.
- DatasetStats:
  - records are values, so copying a record is copying a value;
  - aliasing between the appended record and its later copies is not modelled, because the copies are taken after the record's last update;
  - relation maps are association lists with distinct keys, as JSON objects are;
  - a missing relation map is an empty one; a map that is explicitly `null` in the JSON is not modelled.
- The data-frame part of `stats/dataset_stats.py` (`wikidata_entity_id` extraction and `print_dataset_stats`) is not modelled.
- `extract_movie` (generation/movie_extractor.py:23-32) is not modelled: its lazy, backtracking question regex is out of proportion. Its check at line 28 calls `.startswith` on a field that is a map elsewhere in the pipeline. The test at line 36 goes with it.
- The module-level I/O of generation/movie_extractor.py (:38-48) is not modelled.
- MovieExtractor: `.` is modelled as any character other than `\n`, and the multi-line behaviour of `clean_movie_entity` is covered only by the definition, not by a lemma.
- The remote-service and model code of the repository (SPARQL, Wikipedia, GENRE, spaCy, sentence transformers, clustering, `paq/run_experiment.py`) is not part of this model.
