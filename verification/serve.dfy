/**
 * The string helpers of the serving script: its own copies of `unmask` and
 * `get_vocab_dicts` (the same logic as the decode module), and the renaming
 * of a saved state dict's keys, which drops a leading `model.` from each key
 * while filling a fresh ordered dict.
 */
module Serve {
  import opened PyStr
  import opened Rewrite
  import SparqlProcessing

  /** `unmask`, the serving script's copy. */
  method Unmask(maskedQuery: string, vocabDict: map<string, string>) returns (r: string)
    ensures r == SparqlProcessing.UnmaskQuery(maskedQuery, vocabDict)
  {
    r := SparqlProcessing.Unmask(maskedQuery, vocabDict);
  }

  /** `get_vocab_dicts`, the serving script's copy, with the file's lines as a parameter. */
  method GetVocabDicts(lines: seq<string>) returns (vocabDict: map<string, string>, reverseVocabDict: map<string, string>)
    ensures vocabDict == SparqlProcessing.Forward(SparqlProcessing.VocabEntries(lines))
    ensures reverseVocabDict == SparqlProcessing.Reverse(SparqlProcessing.VocabEntries(lines))
  {
    vocabDict, reverseVocabDict := SparqlProcessing.GetVocabDicts(lines);
  }

  // ---------------------------------------------------------------------------
  // State-dict key renaming

  /** The prefix dropped from saved parameter names. */
  const ModelPrefix: string := "model."

  predicate HasPrefix(s: string, p: string) {
    |p| <= |s| && s[..|p|] == p
  }

  /** `k.removeprefix(p)`. */
  function RemovePrefix(k: string, p: string): (r: string)
    ensures HasPrefix(k, p) ==> k == p + r
    ensures !HasPrefix(k, p) ==> r == k
  {
    if HasPrefix(k, p) then k[|p|..] else k
  }

  /** The position of key `k` in the ordered dict `d`. */
  function IndexOf<V>(d: seq<(string, V)>, k: string): (i: nat)
    requires k in Keys(d)
    ensures i < |d| && d[i].0 == k
    ensures forall j :: 0 <= j < i ==> d[j].0 != k
    decreases |d|
  {
    if d[0].0 == k then 0
    else
      assert k in Keys(d[1..]) by {
        var m :| 0 <= m < |d| && Keys(d)[m] == k;
        assert Keys(d[1..])[m - 1] == k;
      }
      1 + IndexOf(d[1..], k)
  }

  /**
   * `d[k] = v` on an `OrderedDict`: an existing key keeps its place and takes
   * the new value, a new key goes last.
   */
  function Put<V>(d: seq<(string, V)>, k: string, v: V): (r: seq<(string, V)>)
    ensures k in Keys(d) ==> r == d[IndexOf(d, k) := (k, v)]
    ensures k !in Keys(d) ==> r == d + [(k, v)]
  {
    if k in Keys(d) then d[IndexOf(d, k) := (k, v)] else d + [(k, v)]
  }

  /** The renamed dict after the loop has seen the items `items`. */
  function Renamed<V>(items: seq<(string, V)>): seq<(string, V)>
    decreases |items|
  {
    if items == [] then []
    else
      var last := items[|items| - 1];
      Put(Renamed(items[..|items| - 1]), RemovePrefix(last.0, ModelPrefix), last.1)
  }

  /** The key-renaming loop of `get_model`: `new_dict[key.removeprefix("model.")] = state`. */
  method RenameStateDict<V>(stateDict: seq<(string, V)>) returns (newDict: seq<(string, V)>)
    ensures newDict == Renamed(stateDict)
  {
    newDict := [];
    var i := 0;
    while i < |stateDict|
      invariant 0 <= i <= |stateDict|
      invariant newDict == Renamed(stateDict[..i])
    {
      var (key, state) := stateDict[i];
      assert stateDict[..i + 1][..i] == stateDict[..i];
      newDict := Put(newDict, RemovePrefix(key, ModelPrefix), state);
      i := i + 1;
    }
    assert stateDict[..i] == stateDict;
  }

  predicate DistinctKeys<V>(d: seq<(string, V)>) {
    forall i, j :: 0 <= i < j < |d| ==> d[i].0 != d[j].0
  }

  /** The item list with every key renamed in place. */
  function RenameEach<V>(items: seq<(string, V)>): (r: seq<(string, V)>)
    ensures |r| == |items|
    ensures forall i :: 0 <= i < |items| ==> r[i] == (RemovePrefix(items[i].0, ModelPrefix), items[i].1)
  {
    seq(|items|, i requires 0 <= i < |items| => (RemovePrefix(items[i].0, ModelPrefix), items[i].1))
  }

  /** `removeprefix` strips the prefix at most once: `model.model.x` becomes `model.x`. */
  lemma StripsOnce(k: string)
    ensures RemovePrefix(ModelPrefix + k, ModelPrefix) == k
  {
    assert (ModelPrefix + k)[..|ModelPrefix|] == ModelPrefix;
    assert (ModelPrefix + k)[|ModelPrefix|..] == k;
  }

  /**
   * When no two keys collide after renaming, the result has every item in its
   * original position under its renamed key, with its value unchanged.
   */
  lemma {:induction false} RenamedInOrder<V>(items: seq<(string, V)>)
    requires DistinctKeys(RenameEach(items))
    ensures Renamed(items) == RenameEach(items)
    decreases |items|
  {
    if items != [] {
      var n := |items|;
      var init := items[..n - 1];
      assert RenameEach(init) == RenameEach(items)[..n - 1];
      RenamedInOrder(init);
      var k := RemovePrefix(items[n - 1].0, ModelPrefix);
      forall j | 0 <= j < n - 1
        ensures Keys(Renamed(init))[j] != k
      {
        assert Keys(Renamed(init))[j] == RenameEach(items)[j].0;
      }
      assert RenameEach(items) == RenameEach(init) + [(k, items[n - 1].1)];
    }
  }

  /** The renamed dict's keys are exactly the renamed keys, each once. */
  lemma {:induction false} RenamedKeys<V>(items: seq<(string, V)>)
    ensures forall k :: k in Keys(Renamed(items)) <==> k in Keys(RenameEach(items))
    ensures DistinctKeys(Renamed(items))
    decreases |items|
  {
    if items != [] {
      var n := |items|;
      var init := items[..n - 1];
      RenamedKeys(init);
      var d := Renamed(init);
      var k := RemovePrefix(items[n - 1].0, ModelPrefix);
      var r := Renamed(items);
      assert r == Put(d, k, items[n - 1].1);
      assert Keys(RenameEach(items)) == Keys(RenameEach(init)) + [k];
      forall x
        ensures x in Keys(r) <==> x in Keys(d) || x == k
      {
        if x in Keys(r) {
          var j :| 0 <= j < |r| && Keys(r)[j] == x;
          if k in Keys(d) && j != IndexOf(d, k) {
            assert Keys(d)[j] == x;
          } else if k !in Keys(d) && j < |d| {
            assert Keys(d)[j] == x;
          }
        }
        if x in Keys(d) {
          var j :| 0 <= j < |d| && Keys(d)[j] == x;
          assert Keys(r)[j] == r[j].0;
        }
        if x == k {
          if k in Keys(d) {
            assert Keys(r)[IndexOf(d, k)] == k;
          } else {
            assert Keys(r)[|d|] == k;
          }
        }
      }
    }
  }
}
