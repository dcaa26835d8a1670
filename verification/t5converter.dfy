/**
 * The T5 converter: vocabulary-table inversion, masking of gold Wikidata
 * SPARQL into training targets, annotation of model inputs with masked
 * fragments, and per-word unmasking of model output.
 */
module T5Converter {
  import opened PyStr
  import opened Outcomes
  import opened Rewrite
  import opened TokenMap
  import opened LiteralGuard
  import opened VariableStandardizer
  import opened GuardedText

  /** The number of canonical variable names, `?vr0` to `?vr5`. */
  const NumVars: nat := 6

  /** The spacing table of `_mask_wikisparql_gold`, in its listed order. */
  const ReplacementTable: seq<(string, string)> := [
    ("(", " ( "), (")", " ) "),
    ("{", " { "), ("}", " } "),
    ("wd:", "wd: "),
    ("wdt:", "wdt: "),
    (" p:", " p: "),
    (" ps:", " ps: "),
    ("pq:", "pq: "),
    (",", " , "),
    (",'", ", '"),
    ("'", " ' "),
    (".", " . "),
    ("=", " = "),
    ("  ", " ")
  ]

  /** A training example: the model input and the masked target. */
  datatype TrainingPair = TrainingPair(inputs: string, labels: string)

  /**
   * The inverse of the vocabulary table, built entry by entry; a second key
   * with an entry already seen raises.
   */
  method InvertVocabulary(vocabMask: map<string, string>) returns (r: Result<map<string, string>>)
    ensures r.Success? <==> Injective(vocabMask)
    ensures r.Success? ==> IsInverse(vocabMask, r.value)
    ensures r.Failure? ==> r.error == Exception("T5Converter vocab mask has duplicate values")
  {
    var unmask: map<string, string> := map[];
    var todo := vocabMask.Keys;
    ghost var done: set<string> := {};
    while todo != {}
      invariant done + todo == vocabMask.Keys && done !! todo
      invariant unmask.Keys == set k | k in done :: vocabMask[k]
      invariant forall k :: k in done ==> unmask[vocabMask[k]] == k
      invariant forall a, b :: a in done && b in done && a != b ==> vocabMask[a] != vocabMask[b]
      decreases todo
    {
      var k :| k in todo;
      var v := vocabMask[k];
      if v in unmask {
        ghost var other :| other in done && vocabMask[other] == v;
        assert other != k;
        return Failure(Exception("T5Converter vocab mask has duplicate values"));
      }
      unmask := unmask[v := k];
      todo := todo - {k};
      done := done + {k};
    }
    assert done == vocabMask.Keys;
    return Success(unmask);
  }

  /** The normalisation before renaming: the spacing table once, in order, then lower case. */
  function Normalize(s: string): string {
    Lower(ApplyRules(s, ReplacementTable))
  }

  /** A converter: the vocabulary table and its exact inverse, fixed after construction. */
  class Converter {
    const vocabMask: map<string, string>
    const vocabUnmask: map<string, string>

    predicate Valid() {
      IsInverse(vocabMask, vocabUnmask)
    }

    constructor (vocabMask: map<string, string>, vocabUnmask: map<string, string>)
      requires IsInverse(vocabMask, vocabUnmask)
      ensures this.vocabMask == vocabMask && this.vocabUnmask == vocabUnmask
      ensures Valid()
    {
      this.vocabMask := vocabMask;
      this.vocabUnmask := vocabUnmask;
    }

    /** `_mask_fragment`: the table entry of a key, anything else unchanged. */
    function MaskFragment(w: string): (r: string)
      ensures w in vocabMask ==> r == vocabMask[w]
      ensures w !in vocabMask ==> r == w
    {
      Substitute(vocabMask, w)
    }

    /** The annotation string: every fragment masked whole, joined by single spaces. */
    function Annotations(fragments: seq<string>): string {
      Join(SubstituteAll(vocabMask, fragments))
    }

    /** The masked gold query, or the error renaming raises. */
    function MaskGold(wikisparql: string): Result<string> {
      var (guarded, hashi) := Protect(wikisparql);
      match Standardize(Normalize(guarded), NumVars)
      case Failure(e) => Failure(e)
      case Success(v) => Success(Restore(Join(SubstituteAll(vocabMask, Split(v))), hashi))
    }

    /** `_unmask_generic`: every word that is a placeholder replaced by its vocabulary text. */
    method UnmaskGeneric(masked: string) returns (r: string)
      ensures r == ReplaceWithDict(masked, vocabUnmask)
    {
      var split := Split(masked);
      var i := 0;
      while i < |split|
        invariant 0 <= i <= |split| && |split| == |Split(masked)|
        invariant split[..i] == SubstituteAll(vocabUnmask, Split(masked))[..i]
        invariant forall k :: i <= k < |split| ==> split[k] == Split(masked)[k]
      {
        if split[i] in vocabUnmask {
          split := split[i := vocabUnmask[split[i]]];
        }
        assert split[..i + 1] == split[..i] + [split[i]];
        i := i + 1;
      }
      assert split == SubstituteAll(vocabUnmask, Split(masked));
      r := Strip(Join(split));
    }

    /** `_mask_filter_literals`: every quoted literal replaced by its placeholder and recorded. */
    method MaskFilterLiterals(wikisparql: string) returns (masked: string, hashi: seq<(string, string)>)
      ensures (masked, hashi) == Protect(wikisparql)
    {
      masked := wikisparql;
      hashi := [];
      if QuoteSpans(wikisparql) != [] {
        var lits := FindLiterals(wikisparql);
        var j := 0;
        while j < |lits|
          invariant 0 <= j <= |lits|
          invariant masked == ApplyRules(wikisparql, GuardRules(lits)[..j])
          invariant hashi == LiteralTable(lits)[..j]
        {
          var idx := j + 1;
          var lit := Strip(lits[j]);
          assert GuardRules(lits)[..j + 1][..j] == GuardRules(lits)[..j];
          masked := Replace(masked, "'" + lit + "'", "'" + Placeholder(idx) + "'");
          hashi := hashi + [(Placeholder(idx), lit)];
          assert LiteralTable(lits)[..j + 1] == LiteralTable(lits)[..j] + [LiteralTable(lits)[j]];
          j := j + 1;
        }
        assert GuardRules(lits)[..j] == GuardRules(lits);
        assert LiteralTable(lits)[..j] == LiteralTable(lits);
      } else {
        assert ApplyRules(wikisparql, []) == wikisparql;
      }
    }

    /** `_standardize_vars`: sorted `?`-words renamed to `?vr0`..`?vr5`; a seventh raises. */
    method StandardizeVars(sparql: string) returns (r: Result<string>)
      ensures r == Standardize(sparql, NumVars)
    {
      r := StandardizeWith(sparql, NumVars);
    }

    /** `_mask_wikisparql_gold`. */
    method MaskWikisparqlGold(wikisparql: string) returns (r: Result<string>)
      ensures r == MaskGold(wikisparql)
    {
      var guarded, hashi := MaskFilterLiterals(wikisparql);
      var sparql := ReplaceAll(guarded, ReplacementTable);
      sparql := Lower(sparql);
      assert sparql == Normalize(guarded);
      var standardized := StandardizeVars(sparql);
      if standardized.Failure? {
        return Failure(standardized.error);
      }
      sparql := MaskWords(standardized.value);
      sparql := ReplaceAll(sparql, hashi);
      return Success(sparql);
    }

    /** The masking loop of `_mask_wikisparql_gold`: each word of the text masked in place. */
    method MaskWords(text: string) returns (r: string)
      ensures r == SubstituteText(vocabMask, text)
    {
      var split := Split(text);
      var i := 0;
      while i < |split|
        invariant 0 <= i <= |split| && |split| == |Split(text)|
        invariant split[..i] == SubstituteAll(vocabMask, Split(text))[..i]
        invariant forall k :: i <= k < |split| ==> split[k] == Split(text)[k]
      {
        split := split[i := MaskFragment(split[i])];
        assert split[..i + 1] == split[..i] + [split[i]];
        i := i + 1;
      }
      assert split == SubstituteAll(vocabMask, Split(text));
      r := Join(split);
    }

    /** `_unmask_filter_literals` as evidently intended: every placeholder replaced by its literal. */
    method UnmaskFilterLiterals(sparql: string, hashi: seq<(string, string)>) returns (r: string)
      ensures r == Restore(sparql, hashi)
    {
      r := ReplaceAll(sparql, hashi);
    }

    /** `get_annotations_from_fragments`: each fragment masked whole, joined by single spaces. */
    method GetAnnotationsFromFragments(fragments: seq<string>) returns (r: string)
      ensures r == Annotations(fragments)
    {
      var annotations: seq<string> := [];
      var i := 0;
      while i < |fragments|
        invariant 0 <= i <= |fragments|
        invariant annotations == SubstituteAll(vocabMask, fragments[..i])
      {
        annotations := annotations + [MaskFragment(fragments[i])];
        i := i + 1;
      }
      assert fragments[..i] == fragments;
      r := Join(annotations);
    }

    /** `preprocess_inputs`: the utterance, one space, then the annotations. */
    method PreprocessInputs(utterance: string, fragments: seq<string>) returns (r: string)
      ensures r == utterance + " " + Annotations(fragments)
    {
      var annotations := GetAnnotationsFromFragments(fragments);
      r := utterance + " " + annotations;
    }

    /** `preprocess`: the model input and the masked label, or the error of masking the label. */
    method Preprocess(utterance: string, fragments: seq<string>, wikisparql: string) returns (r: Result<TrainingPair>)
      ensures MaskGold(wikisparql).Failure? ==> r == Failure(MaskGold(wikisparql).error)
      ensures MaskGold(wikisparql).Success? ==>
        r == Success(TrainingPair(utterance + " " + Annotations(fragments), MaskGold(wikisparql).value))
    {
      var inputs := PreprocessInputs(utterance, fragments);
      var labels := MaskWikisparqlGold(wikisparql);
      if labels.Failure? {
        return Failure(labels.error);
      }
      return Success(TrainingPair(inputs, labels.value));
    }

    // -------------------------------------------------------------------------
    // Properties

    /** Every key's placeholder unmasks back to the key. */
    lemma MaskFragmentInverse(w: string)
      requires Valid() && w in vocabMask
      ensures vocabUnmask[MaskFragment(w)] == w
    {
    }

    /**
     * Unmasking keeps the word count: the words of the result are exactly the
     * input words, with each placeholder replaced by its vocabulary text.
     */
    lemma UnmaskGenericWords(masked: string)
      requires WordValued(vocabUnmask)
      ensures Split(ReplaceWithDict(masked, vocabUnmask)) == SubstituteAll(vocabUnmask, Split(masked))
      ensures |Split(ReplaceWithDict(masked, vocabUnmask))| == |Split(masked)|
    {
      ReplaceWithDictWords(masked, vocabUnmask);
    }

    /**
     * Masking the gold query fails exactly when its normalised form has more
     * than six distinct variables, and then with an `IndexError`.
     */
    lemma MaskGoldFailsIff(wikisparql: string)
      ensures MaskGold(wikisparql).Failure? <==> |VariableSet(Normalize(Protect(wikisparql).0))| > NumVars
      ensures MaskGold(wikisparql).Failure? ==> MaskGold(wikisparql).error == IndexError
    {
      StandardizeFailsIff(Normalize(Protect(wikisparql).0), NumVars);
    }

    /**
     * For a query without quoted literals, the masked target unmasks back to
     * the standardised query, word for word, provided no standardised word is
     * a placeholder without being a vocabulary key.
     */
    lemma MaskGoldRoundTrip(wikisparql: string)
      requires Valid() && WordValued(vocabMask) && WordValued(vocabUnmask)
      requires !HasQuotedLiteral(wikisparql)
      requires Standardize(Normalize(wikisparql), NumVars).Success?
      requires var v := Standardize(Normalize(wikisparql), NumVars).value;
        forall t :: t in Split(v) ==> t in vocabMask || t !in vocabUnmask
      ensures MaskGold(wikisparql).Success?
      ensures var v := Standardize(Normalize(wikisparql), NumVars).value;
        ReplaceWithDict(MaskGold(wikisparql).value, vocabUnmask) == Join(Split(v))
    {
      ProtectWithoutLiterals(wikisparql);
      var v := Standardize(Normalize(wikisparql), NumVars).value;
      var masked := Join(SubstituteAll(vocabMask, Split(v)));
      assert Restore(masked, []) == masked;
      assert masked == SubstituteText(vocabMask, v);
      ReplaceWithDictWords(v, vocabMask);
      ReplaceWithDictRoundTrip(vocabMask, vocabUnmask, v);
    }

    /**
     * What the literal guard is for: every literal of a `#`-free gold query
     * with at most nine literals reaches the masked target verbatim, case and
     * punctuation included, when the literals carry no surrounding whitespace
     * and no vocabulary key or entry contains `#`.
     */
    lemma MaskGoldKeepsLiterals(wikisparql: string, k: nat)
      requires HashFree(wikisparql) && k < |FindLiterals(wikisparql)| < 10
      requires forall m :: 0 <= m < |FindLiterals(wikisparql)| ==>
        Strip(FindLiterals(wikisparql)[m]) == FindLiterals(wikisparql)[m]
      requires forall w :: w in vocabMask ==> HashFree(w) && HashFree(vocabMask[w])
      ensures MaskGold(wikisparql).Success? ==> Occurs(MaskGold(wikisparql).value, FindLiterals(wikisparql)[k])
    {
      var lits := FindLiterals(wikisparql);
      var (guarded, hashi) := Protect(wikisparql);
      var d := GuardedPlaceholder(wikisparql, k);
      NormalizeKeepsPlaceholders(guarded, d);
      var v0 := Normalize(guarded);
      if Standardize(v0, NumVars).Success? {
        var v := Standardize(v0, NumVars).value;
        StandardizeKeepsPlaceholders(v0, NumVars, d);
        var joined := Join(SubstituteAll(vocabMask, Split(v)));
        MaskedWordsKeepPlaceholder(v, vocabMask, d);
        LiteralsHashFree(wikisparql);
        RestoreShowsLiteral(joined, lits, d);
        assert MaskGold(wikisparql).value == Restore(joined, hashi);
      }
    }

    /**
     * Annotating and unmasking gives the fragments back, joined by single
     * spaces, when every fragment is a single word that is either a key or
     * not a placeholder.
     */
    lemma AnnotationsRoundTrip(fragments: seq<string>)
      requires Valid() && WordValued(vocabMask) && WordValued(vocabUnmask)
      requires AllTokens(fragments)
      requires forall i :: 0 <= i < |fragments| ==> fragments[i] in vocabMask || fragments[i] !in vocabUnmask
      ensures ReplaceWithDict(Annotations(fragments), vocabUnmask) == Join(fragments)
    {
      SplitJoin(fragments);
      ReplaceWithDictRoundTrip(vocabMask, vocabUnmask, Join(fragments));
      ReplaceWithDictWords(Join(fragments), vocabMask);
    }
  }

  /** `InvertVocabulary` then the constructor; fails exactly on a non-injective table. */
  method NewConverter(vocabMask: map<string, string>) returns (r: Result<Converter>)
    ensures r.Success? <==> Injective(vocabMask)
    ensures r.Success? ==> r.value.vocabMask == vocabMask && r.value.Valid()
    ensures r.Failure? ==> r.error == Exception("T5Converter vocab mask has duplicate values")
  {
    var unmask := InvertVocabulary(vocabMask);
    if unmask.Failure? {
      return Failure(unmask.error);
    }
    var c := new Converter(vocabMask, unmask.value);
    return Success(c);
  }

  // ---------------------------------------------------------------------------
  // Properties of the spacing table

  /**
   * The `,'` rule never fires: the `,` rule just before it has put a space
   * after every comma.
   */
  lemma CommaQuoteRuleIsDead(s: string)
    ensures ApplyRules(s, ReplacementTable[..11]) == ApplyRules(s, ReplacementTable[..10])
  {
    var t := ApplyRules(s, ReplacementTable[..10]);
    assert ReplacementTable[..10][..9] == ReplacementTable[..9];
    assert ReplacementTable[..10][9] == (",", " , ");
    assert t == Replace(ApplyRules(s, ReplacementTable[..9]), ",", " , ");
    ReplaceSpacesAfter(ApplyRules(s, ReplacementTable[..9]), ',', " , ");
    assert FollowedBySpace(t, ',');
    assert !Occurs(t, ",'") by {
      forall i | 0 <= i <= |t|
        ensures !StartsAt(t, ",'", i)
      {
        if i + 2 <= |t| && t[i] == ',' {
          assert t[i + 1] == ' ';
        }
      }
    }
    assert ReplacementTable[..11][..10] == ReplacementTable[..10];
    ReplaceAbsent(t, ",'", ", '");
  }

  /**
   * The spacing table and lower-casing keep every placeholder of the guarded
   * query, and leave each one a word of its own: the quotes the guard put
   * around it have become whitespace.
   */
  lemma NormalizeKeepsPlaceholders(guarded: string, d: nat)
    requires Fenced(guarded, true, true) && 1 <= d <= 9 && Occurs(guarded, Placeholder(d))
    ensures Fenced(Normalize(guarded), true, false) && Occurs(Normalize(guarded), Placeholder(d))
  {
    var t := ReplacementTable;
    assert t == t[..11] + [t[11]] + t[12..];
    ApplyRulesAppend(guarded, t[..11] + [t[11]], t[12..]);
    ApplyRulesAppend(guarded, t[..11], [t[11]]);
    assert forall k :: 0 <= k < 11 ==> KeepsPlaceholders(t[..11][k], true);
    ApplyRulesKeepsPlaceholders(guarded, t[..11], true, true, d);
    var x := ApplyRules(guarded, t[..11]);
    assert [t[11]][..0] == [];
    assert ApplyRules(x, [t[11]]) == Replace(x, "'", " ' ");
    QuoteRuleSpacesPlaceholders(x, true);
    FencedPlaceholders(x, true, true);
    var i :| 0 <= i <= |x| && StartsAt(x, Placeholder(d), i);
    ReplaceKeepsPlaceholder(x, "'", " ' ", d, i);
    assert forall k :: 0 <= k < 3 ==> KeepsPlaceholders(t[12..][k], false);
    ApplyRulesKeepsPlaceholders(Replace(x, "'", " ' "), t[12..], true, false, d);
    LowerKeepsPlaceholders(ApplyRules(guarded, t), true, false, d);
  }

  /**
   * The double-space rule runs once, left to right: a run of exactly three
   * spaces between non-spaces comes out as two, not one.
   */
  lemma SpacingRuleRunsOnce(x: string, y: string)
    requires x == [] || x[|x| - 1] != ' '
    requires y == [] || y[0] != ' '
    ensures Replace(x + "   " + y, "  ", " ") == Replace(x, "  ", " ") + "  " + Replace(y, "  ", " ")
  {
    var p := "  ";
    forall k | 0 <= k < |x| < k + |p|
      ensures !StartsAt(x + ("   " + y), p, k)
    {
      assert (x + ("   " + y))[k] == x[|x| - 1];
    }
    ReplaceConcat(x, "   " + y, p, " ");
    ReplaceUnfold("   " + y, p, " ");
    assert StartsAt("   " + y, p, 0);
    assert ("   " + y)[|p|..] == " " + y;
    ReplaceUnfold(" " + y, p, " ");
    assert !StartsAt(" " + y, p, 0);
    assert (" " + y)[1..] == y;
    assert x + "   " + y == x + ("   " + y);
  }
}
