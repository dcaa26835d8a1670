/**
 * Token-level vocabulary substitution: every whitespace-delimited word that is a
 * key of a lookup table is replaced by its entry, every other word passes
 * through. Masking, unmasking and the baseline's `_replace_with_dict` are all
 * this operation with different tables.
 */
module TokenMap {
  import opened PyStr

  /** One word looked up in a table: `lut[t] if t in lut else t`. */
  function Substitute(lut: map<string, string>, t: string): string {
    if t in lut then lut[t] else t
  }

  /** Every word of `ts` looked up in `lut`, in place. */
  function SubstituteAll(lut: map<string, string>, ts: seq<string>): (rs: seq<string>)
    ensures |rs| == |ts|
    ensures forall i :: 0 <= i < |ts| ==> rs[i] == Substitute(lut, ts[i])
  {
    seq(|ts|, i requires 0 <= i < |ts| => Substitute(lut, ts[i]))
  }

  /** `" ".join(lut.get(t, t) for t in text.split())`. */
  function SubstituteText(lut: map<string, string>, text: string): string {
    Join(SubstituteAll(lut, Split(text)))
  }

  /** `" ".join(lut.get(t, t) for t in text.split()).strip()`. */
  function ReplaceWithDict(text: string, lut: map<string, string>): string {
    Strip(Join(SubstituteAll(lut, Split(text))))
  }

  /** Every entry of the table is a single word. */
  predicate WordValued(lut: map<string, string>) {
    forall k :: k in lut ==> IsToken(lut[k])
  }

  /** No two keys share an entry. */
  predicate Injective(lut: map<string, string>) {
    forall a, b :: a in lut && b in lut && a != b ==> lut[a] != lut[b]
  }

  /** `inv` maps each entry of `fwd` back to its key, and has no other keys. */
  predicate IsInverse(fwd: map<string, string>, inv: map<string, string>) {
    && inv.Keys == fwd.Values
    && forall k :: k in fwd ==> inv[fwd[k]] == k
  }

  /** Only an injective table has an inverse, and the inverse is unique. */
  lemma InverseUnique(fwd: map<string, string>, inv1: map<string, string>, inv2: map<string, string>)
    requires IsInverse(fwd, inv1) && IsInverse(fwd, inv2)
    ensures Injective(fwd) && inv1 == inv2
  {
    forall v | v in inv1
      ensures inv1[v] == inv2[v]
    {
      var k :| k in fwd && fwd[k] == v;
    }
  }

  /**
   * Token count is invariant: the words of the substituted text are exactly the
   * substituted words of the input, one for one.
   */
  lemma SubstituteTextWords(lut: map<string, string>, text: string)
    requires WordValued(lut)
    ensures Split(SubstituteText(lut, text)) == SubstituteAll(lut, Split(text))
    ensures |Split(SubstituteText(lut, text))| == |Split(text)|
  {
    SplitJoin(SubstituteAll(lut, Split(text)));
  }

  /**
   * Unmasking the masked words gives the original words back, provided no
   * original word that is not a key is itself one of the table's entries.
   */
  lemma SubstituteRoundTrip(fwd: map<string, string>, inv: map<string, string>, ts: seq<string>)
    requires IsInverse(fwd, inv)
    requires forall i :: 0 <= i < |ts| ==> ts[i] in fwd || ts[i] !in inv
    ensures SubstituteAll(inv, SubstituteAll(fwd, ts)) == ts
  {
  }

  /** The same round trip on texts: unmask(mask(text)) is the text's words joined by single spaces. */
  lemma SubstituteTextRoundTrip(fwd: map<string, string>, inv: map<string, string>, text: string)
    requires IsInverse(fwd, inv) && WordValued(fwd)
    requires forall t :: t in Split(text) ==> t in fwd || t !in inv
    ensures SubstituteText(inv, SubstituteText(fwd, text)) == Join(Split(text))
  {
    SubstituteTextWords(fwd, text);
    SubstituteRoundTrip(fwd, inv, Split(text));
  }

  /**
   * With single-word entries the final `strip()` changes nothing: the result
   * has one word per input word, each looked up in the table.
   */
  lemma ReplaceWithDictWords(text: string, lut: map<string, string>)
    requires WordValued(lut)
    ensures ReplaceWithDict(text, lut) == SubstituteText(lut, text)
    ensures Split(ReplaceWithDict(text, lut)) == SubstituteAll(lut, Split(text))
  {
    StripJoin(SubstituteAll(lut, Split(text)));
    SubstituteTextWords(lut, text);
  }

  /**
   * Replacing with a table and then with its inverse gives back the words of
   * the text joined by single spaces, provided no word that is not a key is
   * itself one of the table's entries.
   */
  lemma ReplaceWithDictRoundTrip(fwd: map<string, string>, inv: map<string, string>, text: string)
    requires IsInverse(fwd, inv) && WordValued(fwd) && WordValued(inv)
    requires forall t :: t in Split(text) ==> t in fwd || t !in inv
    ensures ReplaceWithDict(ReplaceWithDict(text, fwd), inv) == Join(Split(text))
  {
    ReplaceWithDictWords(text, fwd);
    ReplaceWithDictWords(ReplaceWithDict(text, fwd), inv);
    SubstituteTextRoundTrip(fwd, inv, text);
  }
}
