# t5-for-sparql: masking and unmasking core, in Dafny

This project models the text-processing core of a pipeline that trains T5 to
write Wikidata SPARQL. It covers both directions:

- **Training.** A gold query is turned into a canonical, vocabulary-masked
  target, and a question is turned into a model input annotated with masked
  fragments.
- **Decoding.** Generated masked text is turned back into SPARQL.

Modules (the first five are shared helpers; `LiteralGuard`, `VariableStandardizer` and `GuardedText` are parts of the converter):

| module | models |
|---|---|
| `PyStr` | the Python `str` operations the core uses: `replace` (with its left-to-right, non-overlapping semantics, including an empty pattern), `split()`, `' '.join`, `strip`, ASCII `lower`/`upper`, decimal formatting |
| `Outcomes` | raised exceptions as a `Result` value |
| `Rewrite` | an ordered replacement table applied once, rule by rule, as a loop |
| `TokenMap` | per-word dictionary substitution, and inverse tables |
| `StrOrder` | Python's string order, `sorted(set(...))` |
| `LiteralGuard` | `_mask_filter_literals`: the non-greedy `'…'` scan, `###n` placeholders, restoration |
| `GuardedText` | how a literal's `###n` placeholder survives the spacing table, lower-casing, renaming and word masking of `_mask_wikisparql_gold` |
| `VariableStandardizer` | `_standardize_vars` / `standardize_vars`: sorted `?`-words renamed `?vr0`, `?vr1`, … |
| `T5Converter` | `pipeline/T5Converter.py`: table inversion, gold masking, annotation, unmasking |
| `SparqlProcessing` | `src/sparql_processing.py`: vocabulary tables from lines, `unmask`, `process_masked_query` |
| `Serve` | `src/serve.py`: its copies of `unmask` / `get_vocab_dicts`, and the `model.` key renaming |
| `LCQ2Linker` | `LCQ2WikiDataLinker.link`: entity and relation spans, labels, `"null"` insertion |
| `LCQ2Processor` | `src/pipeline/baselines/LCQ2Processor.py`: `preprocess` step order, `standardize_vars`, `_replace_with_dict` |
| `Wikidata` | `pipeline/WikidataObject.py`: IRI to (prefix, id) by first match, JSON form |
| `BaseLinker` | `pipeline/BaseLinker.py`: `flat_map` and the empty `link` |

How the source's shapes are modelled:
- Code that updates state step by step is written as methods with loops.
  Each method's `ensures` ties its result to a specification function, and
  lemmas state what the source promises about that function.
- Objects whose fields change are classes. The linker's relation table is
  one example: `link` inserts `"null"` entries into it.
- Pure code is written as functions.
- Python dicts that are iterated in insertion order are sequences of pairs.
  Dicts that are only looked up are `map`s.
- An exception is a `Failure` value carrying the exception's class and
  message.

Notes on the code:
- The spacing table of `_mask_wikisparql_gold` has 15 entries.
- An entity descriptor's prefix is `wd`, the text before the colon.
- A relation descriptor's prefix is the text before the colon of its span,
  so ` p` and ` ps` keep their leading space.
- A `}` in an entity span raises `ValueError` to the caller. The core does
  not skip the record itself.
- `LCQ2WikidataProcessor.preprocess` (as corrected) runs the linker on the
  normalised text before variables are renamed.
- The T5 converter takes its annotation fragments from the caller. It does
  not build them from the linker's descriptors.

## Model

| member | source | states |
|---|---|---|
| T5Converter.InvertVocabulary | pipeline/T5Converter.py:12-16 | succeeds exactly when no two keys share a value; then the result is the exact inverse (`unmask[mask[k]] == k`, and its keys are exactly the values); otherwise raises "T5Converter vocab mask has duplicate values" |
| T5Converter.NewConverter | pipeline/T5Converter.py:7-16 | construction fails exactly on a non-injective table; a built converter keeps the table and holds its exact inverse |
| TokenMap.InverseUnique | pipeline/T5Converter.py:12-16 | a table with an exact inverse is injective, and that inverse is unique |
| T5Converter.Converter.MaskFragment | pipeline/T5Converter.py:116-120 | a key maps to its table value; any other string is returned unchanged |
| T5Converter.Converter.MaskFragmentInverse | pipeline/T5Converter.py:12-16 | for a valid converter, every key's placeholder unmasks back to the key |
| T5Converter.Converter.UnmaskGeneric | pipeline/T5Converter.py:122-130 | the in-place loop yields the words of the input, each placeholder replaced by its text, joined by single spaces and stripped |
| T5Converter.Converter.UnmaskGenericWords | pipeline/T5Converter.py:122-130 | unmasking keeps the word count; the result's words are exactly the input words, substituted one for one |
| TokenMap.ReplaceWithDictRoundTrip | pipeline/T5Converter.py:122-130 | with an injective table whose values are single words, masking and then unmasking gives back the words, single-spaced, when no original word is a placeholder |
| TokenMap.SubstituteTextWords | pipeline/T5Converter.py:75-80 | masking word by word keeps the word count, and the words of the result are the substituted words |
| T5Converter.Converter.MaskFilterLiterals | pipeline/T5Converter.py:87-98 | the loop's masked query and literal table equal `Protect`: each found literal's `'text'` is replaced, in order, by `'###n'`, and `###n` is recorded with the stripped text |
| LiteralGuard.QuoteSpansFrom | pipeline/T5Converter.py:88-91 | the matches of `'(.*?)'` are quote pairs with no line break between them, left to right and non-overlapping |
| LiteralGuard.FindLiterals | pipeline/T5Converter.py:91 | one literal per match span |
| LiteralGuard.FindLiteralsEmptyIff | pipeline/T5Converter.py:90-91 | `re.search` and `re.findall` agree: no literal is found exactly when no quote is followed by another before a line break |
| LiteralGuard.FindLiteralsSpec | pipeline/T5Converter.py:88-91 | each literal sits between quotes at its span, contains no quote and no line break, and spans are in document order |
| LiteralGuard.GuardRules | pipeline/T5Converter.py:93-95 | the k-th replacement turns `'` + stripped literal + `'` into `'###k+1'` |
| LiteralGuard.LiteralTable | pipeline/T5Converter.py:93-96 | the table maps `###k+1` to the k-th literal, stripped, in insertion order |
| LiteralGuard.ProtectWithoutLiterals | pipeline/T5Converter.py:89-98 | with no quote pair, the query comes back unchanged with an empty table |
| LiteralGuard.PlaceholdersDistinct | pipeline/T5Converter.py:96 | the placeholders are pairwise distinct, so the table has one entry per literal |
| LiteralGuard.RestoreUndoesProtect | pipeline/T5Converter.py:82-98 | for a query with no `#` and at most nine literals, restoring the guarded query with its table gives back exactly the original query |
| GuardedText.GuardLeavesPlaceholder | pipeline/T5Converter.py:93-95 | the placeholder of a literal that differs from every earlier one is still in the guarded query after all later replacements |
| GuardedText.GuardedPlaceholder | pipeline/T5Converter.py:87-98 | every literal of such a query has a placeholder in the guarded query whose table entry is that literal, and every placeholder there sits between quotes |
| T5Converter.NormalizeKeepsPlaceholders | pipeline/T5Converter.py:51-71 | the spacing table and lower-casing keep each quoted placeholder, now fenced by whitespace |
| GuardedText.StandardizeKeepsPlaceholders | pipeline/T5Converter.py:73 | variable renaming keeps each whitespace-fenced placeholder |
| GuardedText.MaskedWordsKeepPlaceholder | pipeline/T5Converter.py:75-80 | masking word by word keeps each placeholder as a word, and leaves every `#` inside a placeholder, when no table key or value holds `#` |
| GuardedText.RestoreShowsLiteral | pipeline/T5Converter.py:82-83 | restoring a text that holds a placeholder brings in that placeholder's literal |
| T5Converter.Converter.MaskGoldKeepsLiterals | pipeline/T5Converter.py:50-98 | when masking succeeds on a query with no `#` and at most nine stripped literals, every literal appears verbatim in the masked target |
| LiteralGuard.RestoreCapturesLongerPlaceholder | pipeline/T5Converter.py:82-83 | restoration is a plain substring replace: `###1` also rewrites the front of `###10` |
| Rewrite.ReplaceAll | pipeline/T5Converter.py:68-69 | the loop applies every rule once, in table order (`ApplyRules`) |
| Rewrite.ApplyRulesAppend | pipeline/T5Converter.py:68-69 | applying a table in two parts is applying the first part and then the second |
| T5Converter.CommaQuoteRuleIsDead | pipeline/T5Converter.py:59-60 | the `,'` rule never fires, because the `,` rule before it leaves a space after every comma |
| T5Converter.SpacingRuleRunsOnce | pipeline/T5Converter.py:64-69 | the double-space rule runs once, left to right: three spaces between two non-space ends shrink to two, and each side is rewritten on its own |
| VariableStandardizer.VariableTokens | pipeline/T5Converter.py:107 | keeps exactly the words that start with `?` |
| VariableStandardizer.NewVars | pipeline/T5Converter.py:106 | `n` names, the i-th being `?vr` followed by i in decimal |
| VariableStandardizer.CanonicalNamesDistinct | pipeline/T5Converter.py:106 | distinct indices give distinct names |
| VariableStandardizer.Renaming | pipeline/T5Converter.py:109-110 | the i-th sorted variable is paired with the i-th new name |
| VariableStandardizer.StandardizeWith | pipeline/T5Converter.py:104-113 | the renaming loop equals `Standardize`: `IndexError` once the variables outnumber the names, otherwise each replaced in rank order |
| VariableStandardizer.VariablesSpec | pipeline/T5Converter.py:107 | the ranked variables are strictly increasing, are exactly the `?`-words of the query, and number as many as the distinct variables |
| StrOrder.SortedSetSpec | pipeline/T5Converter.py:109 | `sorted(set(xs))` is strictly increasing and holds exactly the elements of `xs` |
| StrOrder.SortedListingUnique | pipeline/T5Converter.py:109 | two strictly increasing listings of the same elements are equal |
| VariableStandardizer.RankIsIndex | pipeline/T5Converter.py:109 | in a strictly increasing listing, an element's position is the number of listed elements smaller than it |
| VariableStandardizer.RenamingByRank | pipeline/T5Converter.py:109-110 | each variable's new name is `?vr` followed by its rank among the query's distinct variables |
| VariableStandardizer.StandardizeFailsIff | pipeline/T5Converter.py:109-110 | renaming fails exactly when there are more distinct variables than names, and then with `IndexError` |
| VariableStandardizer.StandardizeNoVariables | pipeline/T5Converter.py:107-113 | a query without `?`-words is returned unchanged |
| VariableStandardizer.PrefixCapture | pipeline/T5Converter.py:110 | `?x ?xy` becomes `?vr0 ?vr0y`: substring replacement rewrites `?x` inside `?xy` too |
| T5Converter.Converter.StandardizeVars | pipeline/T5Converter.py:104-113 | the converter's renaming uses six names |
| T5Converter.Converter.MaskWords | pipeline/T5Converter.py:75-80 | the in-place loop masks every word and joins with single spaces |
| T5Converter.Converter.MaskWikisparqlGold | pipeline/T5Converter.py:50-85 | steps in the source's order: guard literals, spacing table once in order, lower-case, rename variables (or raise), mask word by word, restore literals last |
| T5Converter.Converter.MaskGoldFailsIff | pipeline/T5Converter.py:73 | masking the gold query fails exactly when its normalised form has more than six distinct variables, with `IndexError` |
| T5Converter.Converter.MaskGoldRoundTrip | pipeline/T5Converter.py:50-85 | for a query without literals, unmasking the masked target gives the standardised query back, word for word, when no standardised word is a stray placeholder |
| T5Converter.Converter.UnmaskFilterLiterals | pipeline/T5Converter.py:100-102 | every placeholder is replaced by its literal, in table order |
| T5Converter.Converter.GetAnnotationsFromFragments | pipeline/T5Converter.py:42-48 | each fragment is masked whole, and the results are joined by single spaces |
| T5Converter.Converter.AnnotationsRoundTrip | pipeline/T5Converter.py:42-48 | unmasking the annotations of single-word fragments gives the fragments back, single-spaced |
| T5Converter.Converter.PreprocessInputs | pipeline/T5Converter.py:36-37 | the input is the utterance, one space, then the annotations |
| T5Converter.Converter.Preprocess | pipeline/T5Converter.py:25-34 | a training pair of that input and the masked gold query, or the masking error |
| SparqlProcessing.VocabEntries | src/sparql_processing.py:6-7 | the stripped lines followed by `null`: one more entry than there are lines |
| SparqlProcessing.GetVocabDicts | src/sparql_processing.py:3-17 | the enumerate loop builds the forward and the reverse table |
| SparqlProcessing.ExtraIdInjective | src/sparql_processing.py:13 | `<extra_id_i>` names are pairwise distinct |
| SparqlProcessing.ReverseSpec | src/sparql_processing.py:11-15 | the reverse table has exactly the keys `<extra_id_0>` to `<extra_id_n-1>`, maps the i-th to entry i, and has as many entries as there are entries |
| SparqlProcessing.ForwardSpec | src/sparql_processing.py:11-15 | the forward table's keys are the entries, and a duplicated entry keeps the placeholder of its last index |
| SparqlProcessing.ForwardReverseInverse | src/sparql_processing.py:11-15 | for every key of the forward table, the reverse table maps its placeholder back to it |
| SparqlProcessing.VocabDictsSpec | src/sparql_processing.py:5-17 | the reverse table of L lines has L+1 entries; placeholder i gives the i-th stripped line, and the last gives `null` |
| SparqlProcessing.SpaceBracketsSpaced | src/sparql_processing.py:21 | after the bracket spacing, every `>` is followed by a space and every `<` is preceded by one |
| SparqlProcessing.MarkersRemoved | src/sparql_processing.py:21-24 | after the removal loop, none of `<pad>`, `</s>`, `<unk>`, `<s>` occurs, and the bracket spacing still holds |
| SparqlProcessing.RemoveAddsNothing | src/sparql_processing.py:23-24 | removing a marker from bracket-spaced text creates no new occurrence of any space-free word |
| SparqlProcessing.Unmask | src/sparql_processing.py:19-34 | the loop's result equals `UnmaskQuery` |
| SparqlProcessing.UnmaskWords | src/sparql_processing.py:25-31 | the result's words are the cleaned text's words, each replaced by its table value if it is a key; the word count is kept |
| SparqlProcessing.MarkerTextUnmasksToEmpty | src/sparql_processing.py:21-31 | a text of control markers and whitespace unmasks to the empty string |
| SparqlProcessing.ProcessMaskedQuery | src/sparql_processing.py:36-40 | decodes with the placeholder-to-text table |
| SparqlProcessing.UnmaskExtraId | src/sparql_processing.py:36-40 | `<extra_id_i>` decodes to the i-th stripped vocabulary line, and the last one to `null` |
| Serve.Unmask | src/serve.py:54-69 | behaves exactly as the decode module's `unmask` |
| Serve.GetVocabDicts | src/serve.py:71-85 | builds exactly the decode module's two tables |
| Serve.RemovePrefix | src/serve.py:38 | a key with the prefix is the prefix followed by the result; any other key is unchanged |
| Serve.Put | src/serve.py:38 | `OrderedDict` assignment: an existing key keeps its place and takes the new value, and a new key goes last |
| Serve.RenameStateDict | src/serve.py:35-39 | the loop's dict equals the fold of `Put` over the items |
| Serve.StripsOnce | src/serve.py:38 | `model.` is stripped at most once |
| Serve.RenamedInOrder | src/serve.py:35-39 | when renamed keys do not collide, every item keeps its position and value under its renamed key |
| Serve.RenamedKeys | src/serve.py:35-39 | the new dict's keys are exactly the renamed keys, each once |
| LCQ2Linker.FindAll | src/pipeline/baselines/LCQ2Linker.py:38-39 | each match is the literal, a group with no space and no line break, and the closing space |
| LCQ2Linker.BeforeColon | src/pipeline/baselines/LCQ2Linker.py:47 | `split(":")[0]`: the longest colon-free prefix |
| LCQ2Linker.EntityDescriptor | src/pipeline/baselines/LCQ2Linker.py:41-50 | succeeds exactly when the span has no `}` and the id is a key; then the descriptor is (text before the colon, id, label) |
| LCQ2Linker.InsertNull | src/pipeline/baselines/LCQ2Linker.py:68-69 | afterwards the checked or the inserted key is present |
| LCQ2Linker.LCQ2WikiDataLinker.LinkAllEntities | src/pipeline/baselines/LCQ2Linker.py:41-52 | the entity loop equals `LinkEntities` over the `wd: ` matches |
| LCQ2Linker.LCQ2WikiDataLinker.LinkAllRelations | src/pipeline/baselines/LCQ2Linker.py:67-80 | the relation loop's result and the linker's new table equal `LinkRelations`; entities unchanged |
| LCQ2Linker.LCQ2WikiDataLinker.Link | src/pipeline/baselines/LCQ2Linker.py:28-82 | the result and the new relation table equal `LinkSpec` with the corrected label key |
| LCQ2Linker.LinkRequiresQuery | src/pipeline/baselines/LCQ2Linker.py:30 | an empty query fails the assertion and leaves the table unchanged |
| LCQ2Linker.EntitiesSpec | src/pipeline/baselines/LCQ2Linker.py:38-52 | the entity loop succeeds exactly when no span holds `}` and every id is a key; then it gives one descriptor per match, in order |
| LCQ2Linker.FirstEntityFailure | src/pipeline/baselines/LCQ2Linker.py:41-49 | a failure comes from the first bad match; a `}` raises `ValueError` with the query and span before any lookup, otherwise `KeyError` on the id |
| LCQ2Linker.EntityPrefixes | src/pipeline/baselines/LCQ2Linker.py:47 | every entity descriptor has prefix `wd` (no colon), the matched id, and that id's label |
| LCQ2Linker.RelationMatchPrefixes | src/pipeline/baselines/LCQ2Linker.py:55-64 | relation spans are grouped by pattern in the order `wdt: `, ` p: `, ` ps: `, `pq: `, and the prefixes are `wdt`, ` p`, ` ps`, `pq` |
| LCQ2Linker.RelationsSpec | src/pipeline/baselines/LCQ2Linker.py:67-80 | with ids of the form `p…`, the corrected relation loop always succeeds: one descriptor per match, labelled from the table or `null`; the table gains exactly a `null` entry per unknown id |
| LCQ2Linker.RelationTableGrows | src/pipeline/baselines/LCQ2Linker.py:68-69 | null insertion only adds keys or sets them to `null`; every other entry survives |
| LCQ2Linker.AsWrittenLabelFails | src/pipeline/baselines/LCQ2Linker.py:77 | as written, the label is read from `"P" + id`, so the loop raises `KeyError` at the first relation unless that exact key exists |
| LCQ2Linker.SampleAsWritten | src/pipeline/baselines/LCQ2Linker.py:77 | `wdt: p26 ` with table `{P26: spouse}` raises `KeyError('Pp26')` as written |
| LCQ2Linker.SampleCorrected | src/pipeline/baselines/LCQ2Linker.py:67-80 | the same input links to `(wdt, p26, spouse)` with the table unchanged |
| LCQ2Linker.LinkCorrected | src/pipeline/baselines/LCQ2Linker.py:28-82 | for a non-empty query with known `}`-free entity ids and ids of the form `p…`, the result has the entities in document order and the relations grouped by pattern, each with its prefix, id and label or `null` |
| LCQ2Processor.UnpackPair | src/pipeline/baselines/LCQ2Processor.py:38 | unpacking a string into two names succeeds exactly on two-character strings |
| LCQ2Processor.SpacingLoopAsWrittenFails | src/pipeline/baselines/LCQ2Processor.py:38-39 | as written, the loop raises `ValueError: not enough values to unpack (expected 2, got 1)` on its first key, for every query |
| LCQ2Processor.LCQ2WikidataProcessor.StandardizeVars | src/pipeline/baselines/LCQ2Processor.py:47-55 | the processor's renaming uses its six names |
| LCQ2Processor.LCQ2WikidataProcessor.Preprocess | src/pipeline/baselines/LCQ2Processor.py:18-45 | corrected step order: spacing table, lower-case, link on that text, rename variables; the result and the linker's table equal `PreprocessSpec` |
| LCQ2Processor.PreprocessEmpty | src/pipeline/baselines/LCQ2Processor.py:43 | an empty gold query fails the linker's assertion and changes nothing |
| LCQ2Processor.PreprocessTooManyVariables | src/pipeline/baselines/LCQ2Processor.py:43-45 | more than six variables raise `IndexError` after linking, and the linker's null insertions remain |
| LCQ2Processor.PreprocessSuccess | src/pipeline/baselines/LCQ2Processor.py:36-45 | on success, the links are those of the normalised query, and the returned query is that text with its sorted variables renamed in rank order |
| LCQ2Processor.ReplaceWithDictInPlace | src/pipeline/baselines/LCQ2Processor.py:69-76 | the in-place loop equals word-wise substitution, joined by single spaces and stripped |
| TokenMap.ReplaceWithDictWords | src/pipeline/baselines/LCQ2Processor.py:69-76 | with single-word values, the result's words are the input's words substituted one for one |
| Wikidata.WikidataObject.ToString | pipeline/WikidataObject.py:35-36 | the string starts with the prefix, has a colon right after it, and ends with the id; its length is theirs plus one |
| Wikidata.ToStringDoubleColon | pipeline/WikidataObject.py:35-36 | every table prefix already ends in `:`, so the string has `::` before the id |
| Wikidata.WikidataObject.Json | pipeline/WikidataObject.py:38-43 | exactly the keys `uri`, `prefix`, `id`, with the fields' values |
| Wikidata.FromJson | pipeline/WikidataObject.py:45-52 | succeeds exactly when all three keys are present |
| Wikidata.FromJsonMissingKey | pipeline/WikidataObject.py:46-48 | raises naming the first missing key, in the order `uri`, `prefix`, `id` |
| Wikidata.FromJsonRoundTrip | pipeline/WikidataObject.py:38-52 | `from_json(o.json())` reproduces all three fields |
| Wikidata.Find | pipeline/WikidataObject.py:57 | the first occurrence at or after a position, or none |
| Wikidata.SplitOnTwo | pipeline/WikidataObject.py:57-59 | two pieces mean the text is the first piece, the base, then the second piece |
| Wikidata.SplitOnOnce | pipeline/WikidataObject.py:57-60 | a base occurring once splits the IRI into what is before it and what is after it |
| Wikidata.FirstMatch | pipeline/WikidataObject.py:55-56 | `from_uri` acts on the first base in table order that occurs anywhere in the IRI |
| Wikidata.NotFound | pipeline/WikidataObject.py:54-69 | "Prefix of URI not found" is raised exactly when no base occurs |
| Wikidata.FromBaseShape | pipeline/WikidataObject.py:57-61 | on success, the IRI is blank text, then the base, then the id, and the prefix is the base's |
| Wikidata.JsonAgrees | pipeline/WikidataObject.py:62-65 | `from_uri(u, "json")` is `from_uri(u).json()`, and the two fail alike |
| Wikidata.OtherTypeFails | pipeline/WikidataObject.py:62-69 | any other `as_type` always raises |
| Wikidata.StatementIriIsEntity | pipeline/WikidataObject.py:15-16 | a statement IRI is read as `wd:` with id `statement/…`, because the entity base comes first |
| Wikidata.DirectPropertyIri | pipeline/WikidataObject.py:18-20 | `…/prop/direct/P26` is read as `wdt:` / `P26`, although the later `…/prop/` base occurs in it too |
| BaseLinker.Linker.ToString | pipeline/BaseLinker.py:7-8 | the string starts with the nine-character tag `(Linker) ` and the rest is the name |
| BaseLinker.Linker.Link | pipeline/BaseLinker.py:10-18 | the utterance unchanged, with no entity and no relation links |
| BaseLinker.FlatMap | pipeline/BaseLinker.py:21-25 | the `extend` loop gives the concatenation of `f(x)` over `xs`, in order; an empty list gives `[]` |
| BaseLinker.ConcatAppend | pipeline/BaseLinker.py:21-25 | flat-mapping a concatenation is concatenating the flat maps |
| BaseLinker.ConcatCons | pipeline/BaseLinker.py:21-25 | the first element's list comes first |
| BaseLinker.ConcatLength | pipeline/BaseLinker.py:21-25 | the length is the sum of the lengths of the `f(x)` |
| BaseLinker.ConcatSingletons | pipeline/BaseLinker.py:21-25 | flat-mapping with one-element lists gives the list back |

## Left out

- File and model I/O is left out. This covers reading the vocabulary and lookup JSON/text files, `torch.load`, and model loading, generation and training. Tables and lines come in as parameters.
- The path-existence assertions in the constructors are left out, because the files are not modelled.
- The `print` warning in `BaseLinker.link` is left out.
- Unicode case mapping is left out. `lower()`/`upper()` are modelled on ASCII letters only.
- Python's regex engine is left out. The two fixed patterns used, the non-greedy `'(.*?)'` and `PREFIX: (.*?) `, are written as hand-made scanners, and their `.` does not cross a line break.
- LCQ2Linker.LCQ2WikiDataLinker.Link: the paired `findall` calls at src/pipeline/baselines/LCQ2Linker.py:38-39 and :55-64 are modelled as one scan that returns the whole span and the group together. The two lists are therefore index-aligned by construction.
- LCQ2Linker.LCQ2WikiDataLinker.Link: this models the label lookup as evidently intended, reading `"P" + id[1:]`. The code as written is `LinkSpec(…, AsWritten)` (see Findings).
- LCQ2Linker.LCQ2WikiDataLinker.constructor: `super(name=...)` at src/pipeline/baselines/LCQ2Linker.py:18 raises `TypeError` in Python. The constructor models the evident intent, which is to store the two tables.
- The unreachable assignment after the `raise` at src/pipeline/baselines/LCQ2Linker.py:44 has no counterpart in the model.
- LCQ2Processor.LCQ2WikidataProcessor.Preprocess: models the evidently intended loop over `items()`, and returns the links and the renamed query, which the source computes and then discards (it has no `return`).
- `BaselineMasker.__init__` and `mask`/`unmask` are left out because they cannot succeed as written:
  - `__init__` iterates the dict's keys and unpacks each into two names (src/pipeline/baselines/LCQ2Processor.py:66), so it fails on any key that is not exactly two characters long.
  - `mask`/`unmask` pass `self` twice to `_replace_with_dict` (lines 80 and 84), which is a `TypeError`.
  - Only the working helper `_replace_with_dict` is modelled.
- T5Converter.Converter.UnmaskFilterLiterals: models the evidently intended return value. As written the function has no `return`, so it yields `None`. Nothing calls it: `_mask_wikisparql_gold` restores literals with its own loop, whose inverse property is `LiteralGuard.RestoreUndoesProtect`.
- T5Converter.Converter.MaskGoldKeepsLiterals: proved for queries with no `#`, at most nine literals, literals without surrounding whitespace, and tables without `#`. With ten or more literals `###1` also rewrites `###10` (`RestoreCapturesLongerPlaceholder`), and a `#` in the query or a stripped-away space can break the guard.
- The sample query of the converter's `__main__` block (pipeline/T5Converter.py:132-143) is not evaluated in the model. Fifteen replacements over a 42-character literal are beyond what the verifier evaluates. The steps it exercises are covered by the general lemmas: spacing, variable renaming and masking.
- `text2sparql`, `preprocess_labels` (a one-line delegation, inlined in `Preprocess`), `get_metadata` and the base-class stubs are left out; `text2sparql` and `get_metadata` compute nothing.
- Query variables written with `$` and double-quoted literals (sections 4.1.3 and 4.1.2 of the SPARQL 1.1 Query Language) are left out, because the source does not handle them either.

## Findings

| source | as written | input that shows it | evidently intended | confidence | as-written member | corrected member |
|---|---|---|---|---|---|---|
| src/pipeline/baselines/LCQ2Linker.py:77 | the label is read from key `"P" + id`, while lines 68-71 check, insert and read `"P" + id[1:]` | query `wdt: p26 ` with relations `{"P26": "spouse"}` raises `KeyError('Pp26')` | read the label from `"P" + id[1:]` (`P26`), giving label `spouse`, or `null` for an unknown id | high (not executed) | LCQ2Linker.SampleAsWritten | LCQ2Linker.SampleCorrected |
| src/pipeline/baselines/LCQ2Processor.py:38-39 | `for k, v in table` iterates the keys and unpacks each string into two names | any gold query: the first key `(` has one character, so `ValueError: not enough values to unpack (expected 2, got 1)` | iterate `table.items()` as the converter does at pipeline/T5Converter.py:68 | high (not executed) | LCQ2Processor.SpacingLoopAsWrittenFails | LCQ2Processor.LCQ2WikidataProcessor.Preprocess |
