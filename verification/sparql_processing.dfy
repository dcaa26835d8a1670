/**
 * The decode side: the placeholder tables built from the vocabulary lines
 * (`<extra_id_i>` for the i-th line, `null` appended last) and `unmask`,
 * which spaces angle brackets, drops the tokenizer's control markers and
 * looks every remaining word up in the placeholder table.
 */
module SparqlProcessing {
  import opened PyStr
  import opened Rewrite
  import opened TokenMap

  /** `f'<extra_id_{i}>'`. */
  function ExtraId(i: nat): string {
    "<extra_id_" + NatToString(i) + ">"
  }

  /** `list(map(lambda x: x.strip(), lines)) + ['null']`. */
  function VocabEntries(lines: seq<string>): (entries: seq<string>)
    ensures |entries| == |lines| + 1
    ensures forall i :: 0 <= i < |lines| ==> entries[i] == Strip(lines[i])
    ensures entries[|lines|] == "null"
  {
    seq(|lines|, i requires 0 <= i < |lines| => Strip(lines[i])) + ["null"]
  }

  /** The surface-to-placeholder table after the loop: a later line overwrites an earlier equal one. */
  function Forward(entries: seq<string>): map<string, string>
    decreases |entries|
  {
    if entries == [] then map[]
    else Forward(entries[..|entries| - 1])[entries[|entries| - 1] := ExtraId(|entries| - 1)]
  }

  /** The placeholder-to-surface table after the loop. */
  function Reverse(entries: seq<string>): map<string, string>
    decreases |entries|
  {
    if entries == [] then map[]
    else Reverse(entries[..|entries| - 1])[ExtraId(|entries| - 1) := entries[|entries| - 1]]
  }

  /** `get_vocab_dicts`, with the file's lines as a parameter. */
  method GetVocabDicts(lines: seq<string>) returns (vocabDict: map<string, string>, reverseVocabDict: map<string, string>)
    ensures vocabDict == Forward(VocabEntries(lines))
    ensures reverseVocabDict == Reverse(VocabEntries(lines))
  {
    var vocab := VocabEntries(lines);
    vocabDict := map[];
    reverseVocabDict := map[];
    var i := 0;
    while i < |vocab|
      invariant 0 <= i <= |vocab|
      invariant vocabDict == Forward(vocab[..i])
      invariant reverseVocabDict == Reverse(vocab[..i])
    {
      var key := vocab[i];
      var value := ExtraId(i);
      assert vocab[..i + 1][..i] == vocab[..i];
      vocabDict := vocabDict[key := value];
      reverseVocabDict := reverseVocabDict[value := key];
      i := i + 1;
    }
    assert vocab[..i] == vocab;
  }

  /** `q.replace(">", "> ").replace("<", " <")`. */
  function SpaceBrackets(q: string): string {
    Replace(Replace(q, ">", "> "), "<", " <")
  }

  /** The control markers, removed in this order. */
  const Markers: seq<string> := ["<pad>", "</s>", "<unk>", "<s>"]

  /** Each marker replaced by the empty string. */
  const MarkerRules: seq<(string, string)> := [("<pad>", ""), ("</s>", ""), ("<unk>", ""), ("<s>", "")]

  /** The text after bracket spacing and marker removal, before `strip().split()`. */
  function Cleaned(q: string): string {
    ApplyRules(SpaceBrackets(q), MarkerRules)
  }

  /** What `unmask` returns. */
  function UnmaskQuery(q: string, vocabDict: map<string, string>): string {
    Join(SubstituteAll(vocabDict, Split(Strip(Cleaned(q)))))
  }

  /** `unmask`. */
  method Unmask(maskedQuery: string, vocabDict: map<string, string>) returns (r: string)
    ensures r == UnmaskQuery(maskedQuery, vocabDict)
  {
    var q := SpaceBrackets(maskedQuery);
    q := ReplaceAll(q, MarkerRules);
    var list := Split(Strip(q));
    ghost var words := list;
    var i := 0;
    while i < |list|
      invariant 0 <= i <= |list| && |list| == |words|
      invariant list[..i] == SubstituteAll(vocabDict, words)[..i]
      invariant forall k :: i <= k < |list| ==> list[k] == words[k]
    {
      if list[i] in vocabDict {
        list := list[i := vocabDict[list[i]]];
      }
      assert list[..i + 1] == list[..i] + [list[i]];
      i := i + 1;
    }
    assert list == SubstituteAll(vocabDict, words);
    r := Join(list);
  }

  /** `process_masked_query`: unmask with the placeholder-to-surface table of the vocabulary lines. */
  method ProcessMaskedQuery(maskedString: string, lines: seq<string>) returns (r: string)
    ensures r == UnmaskQuery(maskedString, Reverse(VocabEntries(lines)))
  {
    var _, vocabDict := GetVocabDicts(lines);
    r := Unmask(maskedString, vocabDict);
  }

  // ---------------------------------------------------------------------------
  // The placeholder tables

  /** Distinct indices have distinct placeholders. */
  lemma ExtraIdInjective(i: nat, j: nat)
    requires ExtraId(i) == ExtraId(j)
    ensures i == j
  {
    DecoratedNatInjective("<extra_id_", i, j, ">");
  }

  lemma {:induction false} ExtraIdCount(n: nat)
    ensures |set i | 0 <= i < n :: ExtraId(i)| == n
    decreases n
  {
    if n > 0 {
      ExtraIdCount(n - 1);
      var s := set i | 0 <= i < n - 1 :: ExtraId(i);
      assert (set i | 0 <= i < n :: ExtraId(i)) == s + {ExtraId(n - 1)};
      if ExtraId(n - 1) in s {
        var k :| 0 <= k < n - 1 && ExtraId(k) == ExtraId(n - 1);
        ExtraIdInjective(k, n - 1);
      }
    }
  }

  /**
   * The reverse table has one entry per vocabulary entry: `<extra_id_i>` maps
   * to the i-th entry, and nothing else is a key.
   */
  lemma {:induction false} ReverseSpec(entries: seq<string>)
    ensures Reverse(entries).Keys == set i | 0 <= i < |entries| :: ExtraId(i)
    ensures forall i :: 0 <= i < |entries| ==> ExtraId(i) in Reverse(entries) && Reverse(entries)[ExtraId(i)] == entries[i]
    ensures |Reverse(entries)| == |entries|
    decreases |entries|
  {
    ReverseLookup(entries);
    ExtraIdCount(|entries|);
  }

  lemma {:induction false} ReverseLookup(entries: seq<string>)
    ensures Reverse(entries).Keys == set i | 0 <= i < |entries| :: ExtraId(i)
    ensures forall i :: 0 <= i < |entries| ==> Reverse(entries)[ExtraId(i)] == entries[i]
    decreases |entries|
  {
    if entries != [] {
      var n := |entries|;
      var init := entries[..n - 1];
      ReverseLookup(init);
      var r := Reverse(init);
      assert Reverse(entries) == r[ExtraId(n - 1) := entries[n - 1]];
      assert (set i | 0 <= i < n :: ExtraId(i)) == (set i | 0 <= i < n - 1 :: ExtraId(i)) + {ExtraId(n - 1)};
      forall i | 0 <= i < n - 1
        ensures Reverse(entries)[ExtraId(i)] == entries[i]
      {
        if ExtraId(i) == ExtraId(n - 1) {
          ExtraIdInjective(i, n - 1);
        }
        assert r[ExtraId(i)] == init[i] == entries[i];
      }
    }
  }

  /** The last position of `k` in `entries`. */
  function LastIndex(entries: seq<string>, k: string): (j: nat)
    requires k in entries
    ensures j < |entries| && entries[j] == k
    ensures forall j' :: j < j' < |entries| ==> entries[j'] != k
    decreases |entries|
  {
    if entries[|entries| - 1] == k then |entries| - 1
    else
      assert k in entries[..|entries| - 1] by {
        var m :| 0 <= m < |entries| && entries[m] == k;
        assert entries[..|entries| - 1][m] == k;
      }
      LastIndex(entries[..|entries| - 1], k)
  }

  /**
   * The forward table has exactly the entries as keys; each maps to the
   * placeholder of its LAST position (a duplicate line is overwritten), and
   * the reverse table maps that placeholder back to it.
   */
  lemma {:induction false} ForwardSpec(entries: seq<string>)
    ensures Forward(entries).Keys == set i | 0 <= i < |entries| :: entries[i]
    ensures forall k :: k in Forward(entries) ==> Forward(entries)[k] == ExtraId(LastIndex(entries, k))
    decreases |entries|
  {
    if entries != [] {
      var n := |entries|;
      var init := entries[..n - 1];
      ForwardSpec(init);
      assert (set i | 0 <= i < n :: entries[i]) == (set i | 0 <= i < n - 1 :: init[i]) + {entries[n - 1]};
      forall k | k in Forward(entries)
        ensures Forward(entries)[k] == ExtraId(LastIndex(entries, k))
      {
        if k != entries[n - 1] {
          assert k in Forward(init);
          assert k in init;
        }
      }
    }
  }

  /** Every forward entry is undone by the reverse table. */
  lemma ForwardReverseInverse(entries: seq<string>, k: string)
    requires k in Forward(entries)
    ensures Forward(entries)[k] in Reverse(entries)
    ensures Reverse(entries)[Forward(entries)[k]] == k
  {
    ForwardSpec(entries);
    ReverseSpec(entries);
    var j := LastIndex(entries, k);
    assert ExtraId(j) in set i | 0 <= i < |entries| :: ExtraId(i);
  }

  /** The tables built from vocabulary lines: one placeholder per line plus `null` last. */
  lemma VocabDictsSpec(lines: seq<string>)
    ensures |Reverse(VocabEntries(lines))| == |lines| + 1
    ensures forall i :: 0 <= i < |lines| ==>
      ExtraId(i) in Reverse(VocabEntries(lines)) && Reverse(VocabEntries(lines))[ExtraId(i)] == Strip(lines[i])
    ensures ExtraId(|lines|) in Reverse(VocabEntries(lines))
    ensures Reverse(VocabEntries(lines))[ExtraId(|lines|)] == "null"
  {
    ReverseSpec(VocabEntries(lines));
    assert ExtraId(|lines|) in set i | 0 <= i < |lines| + 1 :: ExtraId(i);
  }

  // ---------------------------------------------------------------------------
  // Unmasking word by word

  /**
   * With single-word table entries, the words of the result are exactly the
   * words of the cleaned text, each looked up in the table: the word count
   * is preserved.
   */
  lemma UnmaskWords(q: string, vocabDict: map<string, string>)
    requires WordValued(vocabDict)
    ensures Split(UnmaskQuery(q, vocabDict)) == SubstituteAll(vocabDict, Split(Strip(Cleaned(q))))
    ensures |Split(UnmaskQuery(q, vocabDict))| == |Split(Strip(Cleaned(q)))|
  {
    SubstituteTextWords(vocabDict, Strip(Cleaned(q)));
  }

  // ---------------------------------------------------------------------------
  // Bracket spacing and marker removal

  /** Every `>` is followed by a space and every `<` after the first character is preceded by one. */
  predicate Spaced(s: string) {
    && FollowedBySpace(s, '>')
    && forall i :: 0 < i < |s| && s[i] == '<' ==> s[i - 1] == ' '
  }

  /** A control marker's shape: `<`, some non-whitespace, `>`. */
  predicate IsMarker(m: string) {
    |m| >= 2 && m[0] == '<' && m[|m| - 1] == '>' && NoSpace(m)
  }

  lemma {:induction false} SpaceBeforeOpen(t: string)
    requires FollowedBySpace(t, '>')
    ensures var u := Replace(t, "<", " <");
      && Spaced(u)
      && (t != [] ==> u != [] && u[0] == (if t[0] == '<' then ' ' else t[0]))
    decreases |t|
  {
    var u := Replace(t, "<", " <");
    ReplaceUnfold(t, "<", " <");
    if t != [] {
      var t' := t[1..];
      assert FollowedBySpace(t', '>') by {
        forall i | 0 <= i < |t'| && t'[i] == '>'
          ensures i + 1 < |t'| && t'[i + 1] == ' '
        {
          assert t[i + 1] == '>';
        }
      }
      SpaceBeforeOpen(t');
      var r := Replace(t', "<", " <");
      if t[0] == '<' {
        assert StartsAt(t, "<", 0);
        assert u == " <" + r;
      } else {
        assert !StartsAt(t, "<", 0);
        assert u == [t[0]] + r;
        if t[0] == '>' {
          assert t'[0] == ' ';
        }
      }
    }
  }

  /** After bracket spacing, every `>` is followed and every `<` preceded by a space. */
  lemma SpaceBracketsSpaced(q: string)
    ensures Spaced(SpaceBrackets(q))
  {
    ReplaceSpacesAfter(q, '>', "> ");
    SpaceBeforeOpen(Replace(q, ">", "> "));
  }

  lemma SpacedSuffix(s: string, k: nat)
    requires Spaced(s) && k <= |s|
    ensures Spaced(s[k..])
  {
    var t := s[k..];
    forall i | 0 <= i < |t| && t[i] == '>'
      ensures i + 1 < |t| && t[i + 1] == ' '
    {
      assert s[k + i] == '>';
    }
    forall i | 0 < i < |t| && t[i] == '<'
      ensures t[i - 1] == ' '
    {
      assert s[k + i] == '<';
    }
  }

  lemma SpacedConcat(x: string, y: string)
    requires Spaced(x) && Spaced(y)
    requires x != [] ==> x[|x| - 1] == ' '
    ensures Spaced(x + y)
  {
    var s := x + y;
    forall i | 0 <= i < |s| && s[i] == '>'
      ensures i + 1 < |s| && s[i + 1] == ' '
    {
      if i < |x| {
        assert x[i] == '>';
      } else {
        assert y[i - |x|] == '>';
      }
    }
    forall i | 0 < i < |s| && s[i] == '<'
      ensures s[i - 1] == ' '
    {
      if i < |x| {
        assert x[i] == '<';
      } else if i > |x| {
        assert y[i - |x|] == '<';
      }
    }
  }

  /**
   * The first removal of a marker from a spaced text: the text before it ends
   * in a space, and what the rest of the text becomes starts with one.
   */
  lemma FirstRemoval(s: string, m: string) returns (j: nat)
    requires Spaced(s) && IsMarker(m) && Occurs(s, m)
    ensures j + |m| < |s|
    ensures Replace(s, m, "") == s[..j] + Replace(s[j + |m|..], m, "")
    ensures forall k :: 0 <= k < j ==> !StartsAt(s, m, k)
    ensures Spaced(s[..j]) && Spaced(s[j + |m|..])
    ensures j > 0 ==> s[j - 1] == ' '
    ensures var y := Replace(s[j + |m|..], m, ""); y != [] && y[0] == ' '
  {
    j := FirstOccurrence(s, m);
    ReplaceAtFirst(s, m, "", j);
    StartsAtSlice(s, m, j);
    assert s[j] == m[0] == '<' by { assert s[j..j + |m|][0] == s[j]; }
    assert s[j + |m| - 1] == '>' by { assert s[j..j + |m|][|m| - 1] == s[j + |m| - 1]; }
    var x := s[..j];
    var t := s[j + |m|..];
    assert t[0] == ' ';
    SpacedSuffix(s, j + |m|);
    ReplaceUnfold(t, m, "");
    assert !StartsAt(t, m, 0);
    assert Spaced(x) by {
      forall i | 0 <= i < |x| && x[i] == '>'
        ensures i + 1 < |x| && x[i + 1] == ' '
      {
        assert s[i] == '>';
      }
      forall i | 0 < i < |x| && x[i] == '<'
        ensures x[i - 1] == ' '
      {
        assert s[i] == '<';
      }
    }
  }

  /** Removing a marker from a spaced text keeps it spaced. */
  lemma {:induction false} RemoveKeepsSpaced(s: string, m: string)
    requires Spaced(s) && IsMarker(m)
    ensures Spaced(Replace(s, m, ""))
    decreases |s|
  {
    if !Occurs(s, m) {
      ReplaceAbsent(s, m, "");
    } else {
      var j := FirstRemoval(s, m);
      RemoveKeepsSpaced(s[j + |m|..], m);
      SpacedConcat(s[..j], Replace(s[j + |m|..], m, ""));
    }
  }

  /** No whitespace-free text straddles the seam after a text ending in a space. */
  lemma NoStraddle(x: string, y: string, q: string, k: nat)
    requires NoSpace(q) && |q| > 0
    requires x != [] ==> x[|x| - 1] == ' '
    ensures StartsAt(x + y, q, k) ==>
      (k + |q| <= |x| && StartsAt(x, q, k)) || (k >= |x| && StartsAt(y, q, k - |x|))
  {
    if StartsAt(x + y, q, k) {
      OccurrenceInConcat(x, y, q, k);
    }
  }

  lemma PrefixOccurrence(s: string, q: string, j: nat, k: nat)
    requires j <= |s|
    ensures StartsAt(s[..j], q, k) ==> StartsAt(s, q, k)
  {
    if StartsAt(s[..j], q, k) {
      StartsAtInPrefix(s, q, j, k);
    }
  }

  /** Removing a marker from a spaced text leaves no occurrence of it. */
  lemma {:induction false} RemoveLeavesNone(s: string, m: string)
    requires Spaced(s) && IsMarker(m)
    ensures !Occurs(Replace(s, m, ""), m)
    decreases |s|
  {
    if !Occurs(s, m) {
      ReplaceAbsent(s, m, "");
    } else {
      var j := FirstRemoval(s, m);
      var x, y := s[..j], Replace(s[j + |m|..], m, "");
      RemoveLeavesNone(s[j + |m|..], m);
      forall k | 0 <= k <= |x + y|
        ensures !StartsAt(x + y, m, k)
      {
        NoStraddle(x, y, m, k);
        PrefixOccurrence(s, m, j, k);
        if k >= |x| {
          assert StartsAt(y, m, k - |x|) ==> Occurs(y, m);
        }
      }
    }
  }

  /** A whitespace-free text in `x + y`, where `x` ends in a space, lies within `x` or within `y`. */
  lemma SeamFree(x: string, y: string, q: string)
    requires NoSpace(q) && |q| > 0
    requires x != [] ==> x[|x| - 1] == ' '
    ensures Occurs(x + y, q) ==> Occurs(x, q) || Occurs(y, q)
  {
    if Occurs(x + y, q) {
      var k :| 0 <= k <= |x + y| && StartsAt(x + y, q, k);
      NoStraddle(x, y, q, k);
    }
  }

  lemma OccursInPrefix(s: string, q: string, j: nat)
    requires j <= |s|
    ensures Occurs(s[..j], q) ==> Occurs(s, q)
  {
    if Occurs(s[..j], q) {
      var k :| 0 <= k <= j && StartsAt(s[..j], q, k);
      StartsAtInPrefix(s, q, j, k);
    }
  }

  /** Removing a marker from a spaced text creates no whitespace-free text that was not there. */
  lemma {:induction false} RemoveAddsNothing(s: string, m: string, q: string)
    requires Spaced(s) && IsMarker(m)
    requires |q| > 0 && NoSpace(q)
    ensures Occurs(Replace(s, m, ""), q) ==> Occurs(s, q)
    decreases |s|
  {
    if !Occurs(s, m) {
      ReplaceAbsent(s, m, "");
    } else {
      var j := FirstRemoval(s, m);
      var t := s[j + |m|..];
      RemoveAddsNothing(t, m, q);
      SeamFree(s[..j], Replace(t, m, ""), q);
      OccursInPrefix(s, q, j);
      if Occurs(t, q) {
        OccursInSuffix(s, q, j + |m|);
      }
    }
  }

  lemma MarkerRulesSteps(t: string)
    ensures ApplyRules(t, MarkerRules) == Replace(Replace(Replace(Replace(t, "<pad>", ""), "</s>", ""), "<unk>", ""), "<s>", "")
  {
    var r1 := [("<pad>", "")];
    var r2 := r1 + [("</s>", "")];
    var r3 := r2 + [("<unk>", "")];
    assert MarkerRules == r3 + [("<s>", "")];
    assert r1[..0] == [];
    assert ApplyRules(t, r1) == Replace(t, "<pad>", "");
    assert r2[..1] == r1;
    assert ApplyRules(t, r2) == Replace(ApplyRules(t, r1), "</s>", "");
    assert r3[..2] == r2;
    assert ApplyRules(t, r3) == Replace(ApplyRules(t, r2), "<unk>", "");
    assert MarkerRules[..3] == r3;
  }

  /** After the removal loop no control marker is left, and brackets are still spaced. */
  lemma MarkersRemoved(q: string)
    ensures Spaced(Cleaned(q))
    ensures forall m :: m in Markers ==> !Occurs(Cleaned(q), m)
  {
    var t0 := SpaceBrackets(q);
    SpaceBracketsSpaced(q);
    assert IsMarker("<pad>") && IsMarker("</s>") && IsMarker("<unk>") && IsMarker("<s>");
    var t1 := Replace(t0, "<pad>", "");
    var t2 := Replace(t1, "</s>", "");
    var t3 := Replace(t2, "<unk>", "");
    var t4 := Replace(t3, "<s>", "");
    MarkerRulesSteps(t0);
    RemoveKeepsSpaced(t0, "<pad>");
    RemoveKeepsSpaced(t1, "</s>");
    RemoveKeepsSpaced(t2, "<unk>");
    RemoveKeepsSpaced(t3, "<s>");
    RemoveLeavesNone(t0, "<pad>");
    RemoveLeavesNone(t1, "</s>");
    RemoveLeavesNone(t2, "<unk>");
    RemoveLeavesNone(t3, "<s>");
    RemoveAddsNothing(t1, "</s>", "<pad>");
    RemoveAddsNothing(t2, "<unk>", "<pad>");
    RemoveAddsNothing(t2, "<unk>", "</s>");
    RemoveAddsNothing(t3, "<s>", "<pad>");
    RemoveAddsNothing(t3, "<s>", "</s>");
    RemoveAddsNothing(t3, "<s>", "<unk>");
  }

  // ---------------------------------------------------------------------------
  // Text made only of control markers

  /** A text made only of control markers and whitespace. */
  predicate MarkerText(q: string)
    decreases |q|
  {
    if q == [] then true
    else if IsSpace(q[0]) then MarkerText(q[1..])
    else exists k :: 0 <= k < |Markers| && |Markers[k]| <= |q| && q[..|Markers[k]|] == Markers[k] && MarkerText(q[|Markers[k]|..])
  }

  lemma SpaceBracketsConcat(a: string, b: string)
    ensures SpaceBrackets(a + b) == SpaceBrackets(a) + SpaceBrackets(b)
  {
    ReplaceCharConcat(a, b, '>', "> ");
    ReplaceCharConcat(Replace(a, ">", "> "), Replace(b, ">", "> "), '<', " <");
  }

  lemma MarkerRulesAreWords()
    ensures WordPatterns(MarkerRules)
  {
  }

  lemma CleanedSpacedMarker(m: string)
    requires m in Markers
    ensures ApplyRules(" " + m + " ", MarkerRules) == "  "
  {
    if m == "<pad>" {
      assert " " + m + " " == " <pad> ";
      CleanedPad();
    } else if m == "</s>" {
      assert " " + m + " " == " </s> ";
      CleanedEnd();
    } else if m == "<unk>" {
      assert " " + m + " " == " <unk> ";
      CleanedUnk();
    } else {
      assert " " + m + " " == " <s> ";
      CleanedStart();
    }
  }

  /** A bracketed word between two spaces is removed, leaving the two spaces. */
  lemma SpacedWordRemoved(m: string)
    requires |m| > 0 && m[0] == '<'
    ensures Replace(" " + m + " ", m, "") == "  "
  {
    var s := " " + m + " ";
    MatchFromAll(s, m, 1, 0);
    assert StartsAt(s, m, 1);
    assert !StartsAt(s, m, 0);
    ReplaceAtFirst(s, m, "", 1);
    assert s[..1] == " " && s[1 + |m|..] == " ";
    ReplaceUnfold(" ", m, "");
    assert !StartsAt(" ", m, 0);
    assert " "[1..] == [];
  }

  lemma SpacesUntouched()
    ensures Replace("  ", "<pad>", "") == "  " && Replace("  ", "</s>", "") == "  "
    ensures Replace("  ", "<unk>", "") == "  " && Replace("  ", "<s>", "") == "  "
  {
  }

  lemma CleanedPad()
    ensures ApplyRules(" <pad> ", MarkerRules) == "  "
  {
    MarkerRulesSteps(" <pad> ");
    SpacedWordRemoved("<pad>");
    assert " " + "<pad>" + " " == " <pad> ";
    SpacesUntouched();
  }

  lemma CleanedEnd()
    ensures ApplyRules(" </s> ", MarkerRules) == "  "
  {
    MarkerRulesSteps(" </s> ");
    assert Replace(" </s> ", "<pad>", "") == " </s> ";
    SpacedWordRemoved("</s>");
    assert " " + "</s>" + " " == " </s> ";
    SpacesUntouched();
  }

  lemma CleanedUnk()
    ensures ApplyRules(" <unk> ", MarkerRules) == "  "
  {
    MarkerRulesSteps(" <unk> ");
    assert Replace(" <unk> ", "<pad>", "") == " <unk> ";
    assert Replace(" <unk> ", "</s>", "") == " <unk> ";
    SpacedWordRemoved("<unk>");
    assert " " + "<unk>" + " " == " <unk> ";
    SpacesUntouched();
  }

  lemma CleanedStart()
    ensures ApplyRules(" <s> ", MarkerRules) == "  "
  {
    MarkerRulesSteps(" <s> ");
    assert Replace(" <s> ", "<pad>", "") == " <s> ";
    assert Replace(" <s> ", "</s>", "") == " <s> ";
    assert Replace(" <s> ", "<unk>", "") == " <s> ";
    SpacedWordRemoved("<s>");
    assert " " + "<s>" + " " == " <s> ";
    SpacesUntouched();
  }

  /** Each control marker, spaced and cleaned, leaves only whitespace. */
  lemma CleanedMarker(m: string)
    requires m in Markers
    ensures SpaceBrackets(m) == " " + m + " "
    ensures Cleaned(m) == "  "
  {
    if m == "<pad>" {
      assert Replace("<pad>", ">", "> ") == "<pad> ";
      assert Replace("<pad> ", "<", " <") == " <pad> ";
    } else if m == "</s>" {
      assert Replace("</s>", ">", "> ") == "</s> ";
      assert Replace("</s> ", "<", " <") == " </s> ";
    } else if m == "<unk>" {
      assert Replace("<unk>", ">", "> ") == "<unk> ";
      assert Replace("<unk> ", "<", " <") == " <unk> ";
    } else {
      assert Replace("<s>", ">", "> ") == "<s> ";
      assert Replace("<s> ", "<", " <") == " <s> ";
    }
    CleanedSpacedMarker(m);
  }

  /** Cleaning a text of control markers and whitespace leaves only whitespace. */
  lemma {:induction false} MarkerTextCleansToSpace(q: string)
    requires MarkerText(q)
    ensures AllSpace(Cleaned(q))
    decreases |q|
  {
    if q != [] {
      var n: nat;
      if IsSpace(q[0]) {
        n := 1;
        var c := q[0];
        assert q[..1] == [c];
        assert c != '<' && c != '>';
        ReplaceAbsent([c], ">", "> ");
        ReplaceAbsent([c], "<", " <");
        assert SpaceBrackets([c]) == [c];
        ApplyRulesAbsent([c], MarkerRules);
        assert Cleaned(q[..n]) == [c];
      } else {
        var k :| 0 <= k < |Markers| && |Markers[k]| <= |q| && q[..|Markers[k]|] == Markers[k] && MarkerText(q[|Markers[k]|..]);
        n := |Markers[k]|;
        CleanedMarker(Markers[k]);
        assert Cleaned(q[..n]) == "  ";
      }
      var piece := q[..n];
      var rest := q[n..];
      assert AllSpace(Cleaned(piece));
      var sp := SpaceBrackets(piece);
      assert sp != [] && IsSpace(sp[|sp| - 1]);
      assert q == piece + rest;
      MarkerTextCleansToSpace(rest);
      SpaceBracketsConcat(piece, rest);
      MarkerRulesAreWords();
      ApplyRulesConcat(sp, SpaceBrackets(rest), MarkerRules);
      assert Cleaned(q) == Cleaned(piece) + Cleaned(rest);
      var x, y := Cleaned(piece), Cleaned(rest);
      forall i | 0 <= i < |x + y|
        ensures IsSpace((x + y)[i])
      {
        if i >= |x| {
          assert (x + y)[i] == y[i - |x|];
        }
      }
    } else {
      assert SpaceBrackets(q) == [];
      ApplyRulesAbsent([], MarkerRules);
    }
  }

  /** A text made only of control markers and whitespace unmasks to the empty string. */
  lemma MarkerTextUnmasksToEmpty(q: string, vocabDict: map<string, string>)
    requires MarkerText(q)
    ensures UnmaskQuery(q, vocabDict) == ""
  {
    MarkerTextCleansToSpace(q);
    StripAllSpace(Cleaned(q));
  }

  // ---------------------------------------------------------------------------
  // A placeholder unmasks to its vocabulary line

  lemma CharAbsent(s: string, c: char)
    requires forall k :: 0 <= k < |s| ==> s[k] != c
    ensures !Occurs(s, [c])
  {
    forall k | 0 <= k <= |s|
      ensures !StartsAt(s, [c], k)
    {
      StartsAtSlice(s, [c], k);
      if k + 1 <= |s| {
        assert s[k..k + 1] == [s[k]];
      }
    }
  }

  lemma SpaceAfterClose(a: string)
    requires forall k :: 0 <= k < |a| ==> a[k] != '>'
    ensures Replace(a + ">", ">", "> ") == a + "> "
  {
    CharAbsent(a, '>');
    ReplaceCharConcat(a, ">", '>', "> ");
    ReplaceAbsent(a, ">", "> ");
    assert Replace(">", ">", "> ") == "> ";
  }

  lemma SpaceBeforeOpenBracket(b: string)
    requires forall k :: 0 <= k < |b| ==> b[k] != '<'
    ensures Replace("<" + b, "<", " <") == " <" + b
  {
    CharAbsent(b, '<');
    ReplaceCharConcat("<", b, '<', " <");
    ReplaceAbsent(b, "<", " <");
    assert Replace("<", "<", " <") == " <";
  }

  /** A placeholder gets one space on each side from bracket spacing. */
  lemma SpaceBracketsExtraId(i: nat)
    ensures SpaceBrackets(ExtraId(i)) == " " + ExtraId(i) + " "
  {
    var d := NatToString(i);
    var b := "extra_id_" + d;
    assert ExtraId(i) == ("<" + b) + ">";
    assert forall k :: 0 <= k < |b| ==> b[k] != '>' && b[k] != '<' by {
      forall k | 0 <= k < |b|
        ensures b[k] != '>' && b[k] != '<'
      {
        if k >= 9 {
          assert b[k] == d[k - 9];
        }
      }
    }
    SpaceAfterClose("<" + b);
    assert ("<" + b) + "> " == "<" + (b + "> ");
    SpaceBeforeOpenBracket(b + "> ");
  }

  /** No control marker occurs in a spaced placeholder: its only `<` is followed by `e`. */
  lemma NoMarkerInExtraId(i: nat, m: string)
    requires m in Markers
    ensures !Occurs(" " + ExtraId(i) + " ", m)
  {
    var s := " " + ExtraId(i) + " ";
    var d := NatToString(i);
    assert s == " <extra_id_" + d + "> ";
    assert s[1] == '<' && s[2] == 'e';
    assert forall k :: 0 <= k < |s| && k != 1 ==> s[k] != '<' by {
      forall k | 0 <= k < |s| && k != 1
        ensures s[k] != '<'
      {
        if 11 <= k < 11 + |d| {
          assert s[k] == d[k - 11];
        }
      }
    }
    assert m[0] == '<' && m[1] != 'e';
    forall k | 0 <= k <= |s|
      ensures !StartsAt(s, m, k)
    {
      StartsAtSlice(s, m, k);
      if k + |m| <= |s| {
        assert s[k..k + |m|][0] == s[k] && s[k..k + |m|][1] == s[k + 1];
      }
    }
  }

  /** Cleaning a placeholder leaves it between two spaces. */
  lemma CleanedExtraId(i: nat)
    ensures Cleaned(ExtraId(i)) == " " + ExtraId(i) + " "
  {
    SpaceBracketsExtraId(i);
    forall m | m in Markers
      ensures !Occurs(" " + ExtraId(i) + " ", m)
    {
      NoMarkerInExtraId(i, m);
    }
    ApplyRulesAbsent(" " + ExtraId(i) + " ", MarkerRules);
  }

  /** `strip()` takes the single spaces back off a word. */
  lemma StripPadded(w: string)
    requires IsToken(w)
    ensures Strip(" " + w + " ") == w
  {
    var s := " " + w + " ";
    assert s[1..] == w + " ";
    assert TrimLeft(s) == w + " ";
    assert (w + " ")[..|w|] == w;
    assert TrimRight(w + " ") == TrimRight(w);
    StripUnchanged(w);
  }

  /** A placeholder is a single word. */
  lemma ExtraIdIsToken(i: nat)
    ensures IsToken(ExtraId(i))
  {
    var w := ExtraId(i);
    var d := NatToString(i);
    assert w == "<extra_id_" + d + ">";
    forall k | 0 <= k < |w|
      ensures !IsSpace(w[k])
    {
      if 10 <= k < 10 + |d| {
        assert w[k] == d[k - 10];
      }
    }
  }

  /**
   * Unmasking a lone placeholder with the tables of the vocabulary lines gives
   * back its line, stripped (or `null` for the placeholder after the last line).
   */
  lemma UnmaskExtraId(lines: seq<string>, i: nat)
    requires i <= |lines|
    ensures UnmaskQuery(ExtraId(i), Reverse(VocabEntries(lines))) == VocabEntries(lines)[i]
  {
    var w := ExtraId(i);
    var entries := VocabEntries(lines);
    CleanedExtraId(i);
    ExtraIdIsToken(i);
    StripPadded(w);
    SplitJoin([w]);
    ReverseSpec(entries);
    assert SubstituteAll(Reverse(entries), [w]) == [entries[i]];
  }
}
