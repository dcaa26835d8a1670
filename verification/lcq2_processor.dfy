/**
 * The LC-QuAD 2 baseline's processor: its own copy of variable
 * standardisation (six canonical names), the order of its preprocessing
 * steps (spacing table, lower-casing, linking on the normalised text,
 * renaming), and the baseline masker's per-word table substitution.
 */
module LCQ2Processor {
  import opened PyStr
  import opened Outcomes
  import opened Rewrite
  import opened TokenMap
  import opened VariableStandardizer
  import opened LCQ2Linker

  /** `self.num_vars`. */
  const NumVars: nat := 6

  /** The processor's spacing table, in insertion order. */
  const ReplacementTable: seq<(string, string)> := [
    ("(", " ( "), (")", " ) "),
    ("{", " { "), ("}", " } "),
    ("wd:", "wd: "),
    ("wdt:", "wdt: "),
    (" p:", " p: "),
    (" ps:", " ps: "),
    ("pq:", "pq: "),
    (",", " , "),
    (",'", ", '"),
    ("'", " ' "),
    (".", " . "),
    ("=", " = "),
    ("  ", " ")
  ]

  // ---------------------------------------------------------------------------
  // The spacing loop as written: `for k, v in table`

  /** Unpacking a key string into two names, as `k, v = key` does. */
  function UnpackPair(key: string): (r: Result<(string, string)>)
    ensures r.Success? <==> |key| == 2
  {
    if |key| < 2 then Failure(ValueError("not enough values to unpack (expected 2, got " + NatToString(|key|) + ")"))
    else if |key| > 2 then Failure(ValueError("too many values to unpack (expected 2)"))
    else Success(([key[0]], [key[1]]))
  }

  /** The loop over the keys, each unpacked into a pattern and a replacement character. */
  function ReplaceKeysAsWritten(s: string, keys: seq<string>): Result<string>
    decreases |keys|
  {
    if keys == [] then Success(s)
    else
      var kv := UnpackPair(keys[0]);
      if kv.Failure? then Failure(kv.error)
      else ReplaceKeysAsWritten(Replace(s, kv.value.0, kv.value.1), keys[1..])
  }

  /**
   * As written, the spacing loop fails on the first key, `(`, which is one
   * character long: every call of `preprocess` raises `ValueError`.
   */
  lemma SpacingLoopAsWrittenFails(s: string)
    ensures ReplaceKeysAsWritten(s, Keys(ReplacementTable)) ==
      Failure(ValueError("not enough values to unpack (expected 2, got 1)"))
  {
    var keys := Keys(ReplacementTable);
    assert keys != [] && keys[0] == "(" && |keys[0]| == 1;
    assert NatToString(1) == "1";
    var msg := "not enough values to unpack (expected 2, got " + NatToString(1) + ")";
    assert msg == "not enough values to unpack (expected 2, got 1)";
    assert UnpackPair(keys[0]) == Failure(ValueError(msg));
  }

  // ---------------------------------------------------------------------------
  // The corrected preprocessing

  /** The gold query after the spacing table (iterated as `items()`) and lower-casing. */
  function Normalized(gold: string): string {
    Lower(ApplyRules(gold, ReplacementTable))
  }

  /**
   * What the corrected `preprocess` returns (the links and the renamed
   * query), and the linker's relation table afterwards. The linker runs on
   * the normalised text before renaming; a failure in either step is raised.
   */
  function PreprocessSpec(entities: map<string, string>, relations: map<string, string>, gold: string): (Result<(LinkResult, string)>, map<string, string>) {
    var sparql := Normalized(gold);
    var (links, rel') := LinkSpec(entities, relations, sparql, Corrected);
    if links.Failure? then (Failure(links.error), rel')
    else
      var renamed := Standardize(sparql, NumVars);
      if renamed.Failure? then (Failure(renamed.error), rel')
      else (Success((links.value, renamed.value)), rel')
  }

  class LCQ2WikidataProcessor {
    const linker: LCQ2WikiDataLinker
    const numVars: nat

    /** The linker's tables come in as values instead of JSON file paths. */
    constructor(entities: map<string, string>, relations: map<string, string>)
      ensures fresh(linker)
      ensures linker.entities == entities && linker.relations == relations
      ensures numVars == NumVars
    {
      linker := new LCQ2WikiDataLinker(entities, relations);
      numVars := NumVars;
    }

    /** `standardize_vars`: the processor's copy of the renaming, with its six names. */
    method StandardizeVars(sparql: string) returns (r: Result<string>)
      requires numVars == NumVars
      ensures r == Standardize(sparql, NumVars)
    {
      r := StandardizeWith(sparql, numVars);
    }

    /**
     * `preprocess` with the spacing table iterated as `items()` and both
     * results returned: spacing, lower-casing, linking, renaming.
     */
    method Preprocess(utterance: string, wikisparqlGold: string) returns (r: Result<(LinkResult, string)>)
      requires numVars == NumVars
      modifies linker
      ensures linker.entities == old(linker.entities)
      ensures (r, linker.relations) == PreprocessSpec(old(linker.entities), old(linker.relations), wikisparqlGold)
    {
      var sparql := ReplaceAll(wikisparqlGold, ReplacementTable);
      sparql := Lower(sparql);
      var links := linker.Link(utterance, sparql);
      if links.Failure? {
        return Failure(links.error);
      }
      var renamed := StandardizeVars(sparql);
      if renamed.Failure? {
        return Failure(renamed.error);
      }
      r := Success((links.value, renamed.value));
    }
  }

  /** An empty gold query stays empty, so the linker's assertion fails and nothing changes. */
  lemma PreprocessEmpty(entities: map<string, string>, relations: map<string, string>)
    ensures PreprocessSpec(entities, relations, "") == (Failure(AssertionError), relations)
  {
    forall k | 0 <= k < |ReplacementTable|
      ensures |ReplacementTable[k].0| > 0 && !Occurs("", ReplacementTable[k].0)
    {
    }
    ApplyRulesAbsent("", ReplacementTable);
  }

  /**
   * More than six distinct variables in the normalised query raise
   * `IndexError` after linking succeeded, and the linker's null insertions
   * stay in its table.
   */
  lemma PreprocessTooManyVariables(entities: map<string, string>, relations: map<string, string>, gold: string)
    requires LinkSpec(entities, relations, Normalized(gold), Corrected).0.Success?
    requires |VariableSet(Normalized(gold))| > NumVars
    ensures PreprocessSpec(entities, relations, gold) ==
      (Failure(IndexError), LinkSpec(entities, relations, Normalized(gold), Corrected).1)
  {
    StandardizeFailsIff(Normalized(gold), NumVars);
  }

  /**
   * On success the links are those of the normalised query, whose variables
   * are still the original ones, and the returned query is that text with
   * its sorted variables renamed `?vr0`, `?vr1`, ... in rank order.
   */
  lemma PreprocessSuccess(entities: map<string, string>, relations: map<string, string>, gold: string)
    requires PreprocessSpec(entities, relations, gold).0.Success?
    ensures var (links, renamed) := PreprocessSpec(entities, relations, gold).0.value;
      && Success(links) == LinkSpec(entities, relations, Normalized(gold), Corrected).0
      && |VariableSet(Normalized(gold))| <= NumVars
      && renamed == ApplyRules(Normalized(gold), Renaming(Variables(Normalized(gold)), NewVars(NumVars)))
  {
    StandardizeFailsIff(Normalized(gold), NumVars);
  }

  // ---------------------------------------------------------------------------
  // The baseline masker's substitution

  /** `_replace_with_dict`: look every word up in `lut` in place, join with single spaces and strip. */
  method ReplaceWithDictInPlace(textInput: string, lut: map<string, string>) returns (r: string)
    ensures r == ReplaceWithDict(textInput, lut)
  {
    var split := Split(textInput);
    ghost var words := split;
    var i := 0;
    while i < |split|
      invariant 0 <= i <= |split| && |split| == |words|
      invariant split[..i] == SubstituteAll(lut, words)[..i]
      invariant forall k :: i <= k < |split| ==> split[k] == words[k]
    {
      if split[i] in lut {
        split := split[i := lut[split[i]]];
      }
      assert split[..i + 1] == split[..i] + [split[i]];
      i := i + 1;
    }
    assert split == SubstituteAll(lut, words);
    r := Strip(Join(split));
  }
}
