/**
 * The handful of Python `str` operations the pipeline is written with:
 * `isspace`, `in`, `replace`, `split()`, `" ".join`, `strip()`, ASCII
 * `lower()`/`upper()` and the decimal rendering of a non-negative `int`.
 *
 * The recursive definitions walk an index through a fixed string (rather than
 * slicing off a head) so that the verifier can evaluate them on short string
 * literals; the slice-shaped views are proved as lemmas below.
 */
module PyStr {

  /** `c.isspace()`: the characters Python's `split()` and `strip()` treat as whitespace. */
  predicate IsSpace(c: char) {
    var n := c as int;
    n == 0x20 || 0x09 <= n <= 0x0D || 0x1C <= n <= 0x1F || n == 0x85 || n == 0xA0 ||
    n == 0x1680 || 0x2000 <= n <= 0x200A || n == 0x2028 || n == 0x2029 ||
    n == 0x202F || n == 0x205F || n == 0x3000
  }

  predicate NoSpace(s: string) {
    forall i :: 0 <= i < |s| ==> !IsSpace(s[i])
  }

  predicate AllSpace(s: string) {
    forall i :: 0 <= i < |s| ==> IsSpace(s[i])
  }

  /** A word as `str.split()` yields it: non-empty and free of whitespace. */
  predicate IsToken(t: string) {
    |t| > 0 && NoSpace(t)
  }

  predicate AllTokens(ts: seq<string>) {
    forall i :: 0 <= i < |ts| ==> IsToken(ts[i])
  }

  // ---------------------------------------------------------------------------
  // Substring search: `p in s`

  /** The characters `p[k..]` sit in `s` from index `i + k` on. */
  predicate MatchFrom(s: string, p: string, i: nat, k: nat)
    requires k <= |p|
    decreases |p| - k
  {
    k == |p| || (i + k < |s| && s[i + k] == p[k] && MatchFrom(s, p, i, k + 1))
  }

  /** `p` occurs in `s` starting at index `i`. */
  predicate StartsAt(s: string, p: string, i: nat) {
    i + |p| <= |s| && MatchFrom(s, p, i, 0)
  }

  /** `p in s`. */
  predicate Occurs(s: string, p: string) {
    exists i :: 0 <= i <= |s| && StartsAt(s, p, i)
  }

  lemma {:induction false} MatchFromAll(s: string, p: string, i: nat, k: nat)
    requires k <= |p| && i + |p| <= |s|
    ensures MatchFrom(s, p, i, k) <==> forall m :: k <= m < |p| ==> s[i + m] == p[m]
    decreases |p| - k
  {
    if k < |p| {
      MatchFromAll(s, p, i, k + 1);
    }
  }

  lemma StartsAtSlice(s: string, p: string, i: nat)
    ensures StartsAt(s, p, i) <==> i + |p| <= |s| && s[i..i + |p|] == p
  {
    if i + |p| <= |s| {
      MatchFromAll(s, p, i, 0);
      if s[i..i + |p|] == p {
        forall m | 0 <= m < |p|
          ensures s[i + m] == p[m]
        {
          assert s[i..i + |p|][m] == s[i + m];
        }
      }
    }
  }

  /** Whether `p` starts at `j` depends only on the text from some `i <= j` on. */
  lemma StartsAtShift(s: string, p: string, i: nat, j: nat)
    requires i <= j && i <= |s|
    ensures StartsAt(s, p, j) <==> StartsAt(s[i..], p, j - i)
  {
    StartsAtSlice(s, p, j);
    StartsAtSlice(s[i..], p, j - i);
    if j + |p| <= |s| {
      assert s[i..][j - i..j - i + |p|] == s[j..j + |p|];
    }
  }

  lemma StartsAtAppend(a: string, b: string, p: string, k: nat)
    requires StartsAt(b, p, k)
    ensures StartsAt(a + b, p, |a| + k)
  {
    StartsAtShift(a + b, p, |a|, |a| + k);
    assert (a + b)[|a|..] == b;
  }

  lemma StartsAtPrefix(a: string, b: string, p: string)
    ensures StartsAt(a + b, p, 0) <==> (|p| <= |a| && a[..|p|] == p) || (|a| < |p| <= |a| + |b| && a == p[..|a|] && b[..|p| - |a|] == p[|a|..])
  {
    StartsAtSlice(a + b, p, 0);
    if |p| <= |a| + |b| {
      if |p| <= |a| {
        assert (a + b)[..|p|] == a[..|p|];
      } else {
        assert (a + b)[..|p|] == a + b[..|p| - |a|];
        if (a + b)[..|p|] == p {
          assert p[..|a|] == a && p[|a|..] == b[..|p| - |a|];
        }
        if a == p[..|a|] && b[..|p| - |a|] == p[|a|..] {
          assert p == p[..|a|] + p[|a|..];
        }
      }
    }
  }

  /** An occurrence in a suffix is an occurrence in the whole string. */
  lemma OccursInSuffix(s: string, p: string, i: nat)
    requires i <= |s| && Occurs(s[i..], p)
    ensures Occurs(s, p)
  {
    var k :| 0 <= k <= |s[i..]| && StartsAt(s[i..], p, k);
    StartsAtShift(s, p, i, i + k);
  }

  // ---------------------------------------------------------------------------
  // `s.replace(p, r)`

  /** Left-to-right, non-overlapping replacement of every `p` in `s[i..]` by `r`. */
  function ReplaceFrom(s: string, p: string, r: string, i: nat): string
    requires |p| > 0 && i <= |s|
    decreases |s| - i
  {
    if i == |s| then ""
    else if StartsAt(s, p, i) then r + ReplaceFrom(s, p, r, i + |p|)
    else [s[i]] + ReplaceFrom(s, p, r, i + 1)
  }

  /** `r` between every two characters and at both ends, as Python does for an empty pattern. */
  function InsertAround(s: string, r: string, i: nat): string
    requires i <= |s|
    decreases |s| - i
  {
    if i == |s| then r else r + [s[i]] + InsertAround(s, r, i + 1)
  }

  /** `s.replace(p, r)`: every occurrence, left to right, non-overlapping. */
  function Replace(s: string, p: string, r: string): string {
    if p == [] then InsertAround(s, r, 0) else ReplaceFrom(s, p, r, 0)
  }

  lemma {:induction false} ReplaceFromShift(s: string, p: string, r: string, i: nat, j: nat)
    requires |p| > 0 && i <= j <= |s|
    ensures ReplaceFrom(s, p, r, j) == ReplaceFrom(s[i..], p, r, j - i)
    decreases |s| - j
  {
    if j < |s| {
      StartsAtShift(s, p, i, j);
      if StartsAt(s, p, j) {
        ReplaceFromShift(s, p, r, i, j + |p|);
      } else {
        ReplaceFromShift(s, p, r, i, j + 1);
      }
    }
  }

  /** The head-first reading of `replace`: a match at the front is replaced, else the first character is kept. */
  lemma ReplaceUnfold(s: string, p: string, r: string)
    requires |p| > 0
    ensures Replace(s, p, r) ==
      if s == [] then []
      else if StartsAt(s, p, 0) then r + Replace(s[|p|..], p, r)
      else [s[0]] + Replace(s[1..], p, r)
  {
    if s != [] {
      if StartsAt(s, p, 0) {
        ReplaceFromShift(s, p, r, |p|, |p|);
      } else {
        ReplaceFromShift(s, p, r, 1, 1);
      }
    }
  }

  /** `replace` leaves a string without the pattern unchanged. */
  lemma {:induction false} ReplaceAbsent(s: string, p: string, r: string)
    requires |p| > 0 && !Occurs(s, p)
    ensures Replace(s, p, r) == s
    decreases |s|
  {
    ReplaceUnfold(s, p, r);
    if s != [] {
      assert !StartsAt(s, p, 0);
      if Occurs(s[1..], p) {
        OccursInSuffix(s, p, 1);
      }
      ReplaceAbsent(s[1..], p, r);
    }
  }

  /** After `replace`, the replacement text occurs wherever the pattern did. */
  lemma {:induction false} ReplaceIntroduces(s: string, p: string, r: string)
    requires |p| > 0 && Occurs(s, p)
    ensures Occurs(Replace(s, p, r), r)
    decreases |s|
  {
    ReplaceUnfold(s, p, r);
    if StartsAt(s, p, 0) {
      StartsAtSlice(Replace(s, p, r), r, 0);
      assert (r + Replace(s[|p|..], p, r))[..|r|] == r;
    } else {
      var k :| 0 <= k <= |s| && StartsAt(s, p, k);
      assert k != 0;
      StartsAtShift(s, p, 1, k);
      ReplaceIntroduces(s[1..], p, r);
      var m :| 0 <= m <= |Replace(s[1..], p, r)| && StartsAt(Replace(s[1..], p, r), r, m);
      StartsAtAppend([s[0]], Replace(s[1..], p, r), r, m);
    }
  }

  lemma {:induction false} ReplaceFromSkip(s: string, p: string, r: string, i: nat, j: nat)
    requires |p| > 0 && i <= j <= |s|
    requires forall k :: i <= k < j ==> !StartsAt(s, p, k)
    ensures ReplaceFrom(s, p, r, i) == s[i..j] + ReplaceFrom(s, p, r, j)
    decreases j - i
  {
    if i < j {
      assert !StartsAt(s, p, i);
      assert ReplaceFrom(s, p, r, i) == [s[i]] + ReplaceFrom(s, p, r, i + 1);
      ReplaceFromSkip(s, p, r, i + 1, j);
      assert s[i..j] == [s[i]] + s[i + 1..j];
    }
  }

  /** Up to the first occurrence of the pattern, `replace` copies the text. */
  lemma ReplaceKeepsPrefix(s: string, p: string, r: string, j: nat)
    requires |p| > 0 && j <= |s|
    requires forall k :: 0 <= k < j ==> !StartsAt(s, p, k)
    ensures Replace(s, p, r) == s[..j] + Replace(s[j..], p, r)
  {
    ReplaceFromSkip(s, p, r, 0, j);
    ReplaceFromShift(s, p, r, j, j);
  }

  /** The first occurrence of the pattern is replaced, and the rest of the text after it. */
  lemma ReplaceAtFirst(s: string, p: string, r: string, j: nat)
    requires |p| > 0 && StartsAt(s, p, j)
    requires forall k :: 0 <= k < j ==> !StartsAt(s, p, k)
    ensures Replace(s, p, r) == s[..j] + r + Replace(s[j + |p|..], p, r)
  {
    ReplaceKeepsPrefix(s, p, r, j);
    StartsAtShift(s, p, j, j);
    ReplaceUnfold(s[j..], p, r);
    assert s[j..][|p|..] == s[j + |p|..];
  }

  lemma {:induction false} ReplaceFromConcat(a: string, b: string, p: string, r: string, i: nat)
    requires |p| > 0 && i <= |a|
    requires forall k :: 0 <= k < |a| < k + |p| ==> !StartsAt(a + b, p, k)
    ensures ReplaceFrom(a + b, p, r, i) == ReplaceFrom(a, p, r, i) + Replace(b, p, r)
    decreases |a| - i
  {
    if i == |a| {
      ReplaceFromShift(a + b, p, r, |a|, |a|);
      assert (a + b)[|a|..] == b;
    } else {
      StartsAtSlice(a + b, p, i);
      StartsAtSlice(a, p, i);
      if i + |p| <= |a| {
        assert (a + b)[i..i + |p|] == a[i..i + |p|];
      }
      if StartsAt(a, p, i) {
        assert StartsAt(a + b, p, i);
        ReplaceFromConcat(a, b, p, r, i + |p|);
        assert ReplaceFrom(a + b, p, r, i) == r + ReplaceFrom(a + b, p, r, i + |p|);
        assert ReplaceFrom(a, p, r, i) == r + ReplaceFrom(a, p, r, i + |p|);
      } else {
        assert !StartsAt(a + b, p, i);
        ReplaceFromConcat(a, b, p, r, i + 1);
        assert (a + b)[i] == a[i];
        assert ReplaceFrom(a + b, p, r, i) == [a[i]] + ReplaceFrom(a + b, p, r, i + 1);
        assert ReplaceFrom(a, p, r, i) == [a[i]] + ReplaceFrom(a, p, r, i + 1);
      }
    }
  }

  /** `replace` distributes over a concatenation that no occurrence of the pattern straddles. */
  lemma ReplaceConcat(a: string, b: string, p: string, r: string)
    requires |p| > 0
    requires forall k :: 0 <= k < |a| < k + |p| ==> !StartsAt(a + b, p, k)
    ensures Replace(a + b, p, r) == Replace(a, p, r) + Replace(b, p, r)
  {
    ReplaceFromConcat(a, b, p, r, 0);
  }

  /** A single character cannot straddle a boundary, so replacing it always distributes. */
  lemma ReplaceCharConcat(a: string, b: string, c: char, r: string)
    ensures Replace(a + b, [c], r) == Replace(a, [c], r) + Replace(b, [c], r)
  {
    ReplaceConcat(a, b, [c], r);
  }

  /** An occurrence in a concatenation lies in the left part, in the right part, or straddles the seam. */
  lemma OccurrenceInConcat(x: string, y: string, q: string, k: nat)
    requires |q| > 0 && StartsAt(x + y, q, k)
    ensures || (k + |q| <= |x| && StartsAt(x, q, k))
            || (k >= |x| && StartsAt(y, q, k - |x|))
            || (k < |x| < k + |q| && q[|x| - 1 - k] == x[|x| - 1] && y != [] && q[|x| - k] == y[0])
  {
    StartsAtSlice(x + y, q, k);
    if k + |q| <= |x| {
      StartsAtSlice(x, q, k);
      assert (x + y)[k..k + |q|] == x[k..k + |q|];
    } else if k >= |x| {
      StartsAtShift(x + y, q, |x|, k);
      assert (x + y)[|x|..] == y;
    } else {
      assert (x + y)[k..k + |q|][|x| - 1 - k] == x[|x| - 1];
      assert (x + y)[k..k + |q|][|x| - k] == y[0];
    }
  }

  /** Whitespace at the end of a text survives replacing a whitespace-free pattern. */
  lemma ReplaceKeepsLastSpace(s: string, p: string, r: string)
    requires |p| > 0 && NoSpace(p)
    requires s != [] && IsSpace(s[|s| - 1])
    ensures var t := Replace(s, p, r); t != [] && t[|t| - 1] == s[|s| - 1]
  {
    var c := s[|s| - 1];
    var a := s[..|s| - 1];
    assert s == a + [c];
    forall k | 0 <= k < |a| < k + |p|
      ensures !StartsAt(a + [c], p, k)
    {
      if StartsAt(a + [c], p, k) {
        OccurrenceInConcat(a, [c], p, k);
      }
    }
    ReplaceConcat(a, [c], p, r);
    assert !IsSpace(p[0]);
    assert !Occurs([c], p);
    ReplaceAbsent([c], p, r);
  }

  /** An occurrence in a prefix is an occurrence in the whole string. */
  lemma StartsAtInPrefix(s: string, q: string, j: nat, k: nat)
    requires j <= |s| && StartsAt(s[..j], q, k)
    ensures StartsAt(s, q, k)
  {
    StartsAtSlice(s[..j], q, k);
    StartsAtSlice(s, q, k);
    assert s[..j][k..k + |q|] == s[k..k + |q|];
  }

  /** The leftmost occurrence of a pattern that occurs. */
  lemma FirstOccurrence(s: string, p: string) returns (j: nat)
    requires Occurs(s, p)
    ensures j <= |s| && StartsAt(s, p, j)
    ensures forall k :: 0 <= k < j ==> !StartsAt(s, p, k)
  {
    var w :| 0 <= w <= |s| && StartsAt(s, p, w);
    j := 0;
    while !StartsAt(s, p, j)
      invariant j <= w
      invariant forall k :: 0 <= k < j ==> !StartsAt(s, p, k)
      decreases w - j
    {
      j := j + 1;
    }
  }

  /** Every `c` in `s` is immediately followed by a space. */
  predicate FollowedBySpace(s: string, c: char) {
    forall i :: 0 <= i < |s| && s[i] == c ==> i + 1 < |s| && s[i + 1] == ' '
  }

  /** Replacing a character by a text in which it is followed by a space leaves it followed by a space everywhere. */
  lemma {:induction false} ReplaceSpacesAfter(s: string, c: char, r: string)
    requires FollowedBySpace(r, c)
    ensures FollowedBySpace(Replace(s, [c], r), c)
    decreases |s|
  {
    ReplaceUnfold(s, [c], r);
    if s != [] {
      ReplaceSpacesAfter(s[1..], c, r);
      var rest := Replace(s[1..], [c], r);
      if s[0] == c {
        assert StartsAt(s, [c], 0);
        assert Replace(s, [c], r) == r + rest;
      } else {
        assert !StartsAt(s, [c], 0);
        assert Replace(s, [c], r) == [s[0]] + rest;
      }
    }
  }

  // ---------------------------------------------------------------------------
  // `s.split()` and `" ".join(ts)`

  /** The end of the word that starts at `i`: the next whitespace, or the end of `s`. */
  function WordEnd(s: string, i: nat): (j: nat)
    requires i <= |s|
    ensures i <= j <= |s|
    ensures forall k :: i <= k < j ==> !IsSpace(s[k])
    ensures j == |s| || IsSpace(s[j])
    decreases |s| - i
  {
    if i == |s| || IsSpace(s[i]) then i else WordEnd(s, i + 1)
  }

  function SplitFrom(s: string, i: nat): (ts: seq<string>)
    requires i <= |s|
    ensures AllTokens(ts)
    decreases |s| - i
  {
    if i == |s| then []
    else if IsSpace(s[i]) then SplitFrom(s, i + 1)
    else
      var j := WordEnd(s, i);
      [s[i..j]] + SplitFrom(s, j)
  }

  /** `s.split()`: the maximal whitespace-free runs of `s`, left to right; never an empty word. */
  function Split(s: string): (ts: seq<string>)
    ensures AllTokens(ts)
  {
    SplitFrom(s, 0)
  }

  /** `" ".join(ts)`. */
  function Join(ts: seq<string>): string {
    if ts == [] then ""
    else if |ts| == 1 then ts[0]
    else ts[0] + " " + Join(ts[1..])
  }

  lemma {:induction false} WordEndShift(s: string, i: nat, j: nat)
    requires i <= j <= |s|
    ensures WordEnd(s, j) == i + WordEnd(s[i..], j - i)
    decreases |s| - j
  {
    if j < |s| {
      assert s[i..][j - i] == s[j];
      if !IsSpace(s[j]) {
        WordEndShift(s, i, j + 1);
      }
    }
  }

  lemma {:induction false} SplitFromShift(s: string, i: nat, j: nat)
    requires i <= j <= |s|
    ensures SplitFrom(s, j) == SplitFrom(s[i..], j - i)
    decreases |s| - j
  {
    if j < |s| {
      var t := s[i..];
      assert t[j - i] == s[j];
      if IsSpace(s[j]) {
        SplitFromShift(s, i, j + 1);
      } else {
        var e := WordEnd(s, j);
        WordEndShift(s, i, j);
        SplitFromShift(s, i, e);
        SplitFromWord(s, i, j, e);
      }
    }
  }

  lemma SplitFromWord(s: string, i: nat, j: nat, e: nat)
    requires i <= j < |s| && !IsSpace(s[j]) && e == WordEnd(s, j)
    requires e - i == WordEnd(s[i..], j - i)
    requires SplitFrom(s, e) == SplitFrom(s[i..], e - i)
    ensures SplitFrom(s, j) == SplitFrom(s[i..], j - i)
  {
    var t := s[i..];
    assert t[j - i] == s[j];
    assert t[j - i..e - i] == s[j..e];
  }

  /** The head-first reading of `split()`. */
  lemma SplitUnfold(s: string)
    ensures Split(s) ==
      if s == [] then []
      else if IsSpace(s[0]) then Split(s[1..])
      else [s[..WordEnd(s, 0)]] + Split(s[WordEnd(s, 0)..])
  {
    if s != [] {
      if IsSpace(s[0]) {
        SplitFromShift(s, 1, 1);
      } else {
        SplitFromShift(s, WordEnd(s, 0), WordEnd(s, 0));
      }
    }
  }

  /** A text made only of whitespace has no words. */
  lemma {:induction false} SplitAllSpace(s: string)
    requires AllSpace(s)
    ensures Split(s) == []
    decreases |s|
  {
    SplitUnfold(s);
    if s != [] {
      SplitAllSpace(s[1..]);
    }
  }

  lemma WordEndOfToken(t: string, rest: string)
    requires IsToken(t)
    requires rest == [] || IsSpace(rest[0])
    ensures WordEnd(t + rest, 0) == |t|
  {
    var s := t + rest;
    var e := WordEnd(s, 0);
    assert forall k :: 0 <= k < |t| ==> s[k] == t[k];
    assert |t| < |s| ==> s[|t|] == rest[0];
  }

  /** Joining words with single spaces and splitting again gives the same words back. */
  lemma {:induction false} SplitJoin(ts: seq<string>)
    requires AllTokens(ts)
    ensures Split(Join(ts)) == ts
    decreases |ts|
  {
    if |ts| == 1 {
      SplitUnfold(ts[0]);
      WordEndOfToken(ts[0], []);
      assert ts[0][..|ts[0]|] == ts[0];
      SplitUnfold([]);
    } else if |ts| > 1 {
      var s := Join(ts);
      var rest := Join(ts[1..]);
      assert s == ts[0] + (" " + rest);
      SplitUnfold(s);
      WordEndOfToken(ts[0], " " + rest);
      assert s[..|ts[0]|] == ts[0];
      assert s[|ts[0]|..] == " " + rest;
      SplitUnfold(" " + rest);
      assert (" " + rest)[1..] == rest;
      SplitJoin(ts[1..]);
      assert ts == [ts[0]] + ts[1..];
    }
  }

  // ---------------------------------------------------------------------------
  // `s.strip()`

  function TrimLeft(s: string): (r: string)
    ensures r == [] || !IsSpace(r[0])
    decreases |s|
  {
    if s != [] && IsSpace(s[0]) then TrimLeft(s[1..]) else s
  }

  function TrimRight(s: string): (r: string)
    ensures r == [] || !IsSpace(r[|r| - 1])
    ensures |r| <= |s| && r == s[..|r|]
    decreases |s|
  {
    if s != [] && IsSpace(s[|s| - 1]) then TrimRight(s[..|s| - 1]) else s
  }

  /** `s.strip()`: leading and trailing whitespace removed. */
  function Strip(s: string): (r: string)
    ensures r == [] || (!IsSpace(r[0]) && !IsSpace(r[|r| - 1]))
  {
    TrimRight(TrimLeft(s))
  }

  /** `strip()` keeps a contiguous piece of the text: what it returns is a slice. */
  lemma {:induction false} StripIsSlice(s: string)
    ensures exists i, j :: 0 <= i <= j <= |s| && Strip(s) == s[i..j]
    decreases |s|
  {
    if s != [] && IsSpace(s[0]) {
      StripIsSlice(s[1..]);
      var i, j :| 0 <= i <= j <= |s[1..]| && Strip(s[1..]) == s[1..][i..j];
      assert s[1..][i..j] == s[i + 1..j + 1];
    } else {
      assert TrimLeft(s) == s;
      assert Strip(s) == s[0..|Strip(s)|];
    }
  }

  lemma {:induction false} TrimLeftAllSpace(s: string)
    requires AllSpace(s)
    ensures TrimLeft(s) == []
    decreases |s|
  {
    if s != [] {
      TrimLeftAllSpace(s[1..]);
    }
  }

  /** `strip()` empties a whitespace-only text. */
  lemma StripAllSpace(s: string)
    requires AllSpace(s)
    ensures Strip(s) == []
  {
    TrimLeftAllSpace(s);
  }

  /** `strip()` changes nothing in a text that starts and ends with a non-space. */
  lemma StripUnchanged(s: string)
    requires s == [] || (!IsSpace(s[0]) && !IsSpace(s[|s| - 1]))
    ensures Strip(s) == s
  {
  }

  lemma {:induction false} JoinEnds(ts: seq<string>)
    requires AllTokens(ts) && ts != []
    ensures |Join(ts)| > 0
    ensures Join(ts)[0] == ts[0][0]
    ensures Join(ts)[|Join(ts)| - 1] == ts[|ts| - 1][|ts[|ts| - 1]| - 1]
    decreases |ts|
  {
    if |ts| > 1 {
      JoinEnds(ts[1..]);
    }
  }

  /** A single-space join of words has no leading or trailing whitespace, so `strip()` keeps it. */
  lemma StripJoin(ts: seq<string>)
    requires AllTokens(ts)
    ensures Strip(Join(ts)) == Join(ts)
  {
    if ts != [] {
      JoinEnds(ts);
    }
  }

  // ---------------------------------------------------------------------------
  // ASCII `lower()` / `upper()`

  function LowerChar(c: char): char {
    if 'A' <= c <= 'Z' then (c as int + 32) as char else c
  }

  function UpperChar(c: char): char {
    if 'a' <= c <= 'z' then (c as int - 32) as char else c
  }

  function LowerFrom(s: string, i: nat): (r: string)
    requires i <= |s|
    ensures |r| == |s| - i
    ensures forall k :: 0 <= k < |r| ==> r[k] == LowerChar(s[i + k])
    decreases |s| - i
  {
    if i == |s| then [] else [LowerChar(s[i])] + LowerFrom(s, i + 1)
  }

  function UpperFrom(s: string, i: nat): (r: string)
    requires i <= |s|
    ensures |r| == |s| - i
    ensures forall k :: 0 <= k < |r| ==> r[k] == UpperChar(s[i + k])
    decreases |s| - i
  {
    if i == |s| then [] else [UpperChar(s[i])] + UpperFrom(s, i + 1)
  }

  /** `s.lower()` restricted to ASCII letters. */
  function Lower(s: string): string {
    LowerFrom(s, 0)
  }

  /** `s.upper()` restricted to ASCII letters. */
  function Upper(s: string): string {
    UpperFrom(s, 0)
  }

  // ---------------------------------------------------------------------------
  // `str(n)` / `f"{n}"` for a non-negative integer

  function DigitChar(d: nat): (c: char)
    requires d < 10
    ensures '0' <= c <= '9'
  {
    (48 + d) as char
  }

  /** The decimal rendering of `n`, most significant digit first, without leading zeros. */
  function NatToString(n: nat): (s: string)
    ensures 1 <= |s|
    ensures n >= 10 ==> |s| >= 2
    ensures forall i :: 0 <= i < |s| ==> '0' <= s[i] <= '9'
    decreases n
  {
    if n < 10 then [DigitChar(n)] else NatToString(n / 10) + [DigitChar(n % 10)]
  }

  /** Distinct numbers render differently. */
  lemma {:induction false} NatToStringInjective(a: nat, b: nat)
    requires NatToString(a) == NatToString(b)
    ensures a == b
    decreases a
  {
    var s := NatToString(a);
    if a >= 10 && b >= 10 {
      assert s[|s| - 1] == DigitChar(a % 10) == DigitChar(b % 10);
      assert s[..|s| - 1] == NatToString(a / 10) == NatToString(b / 10);
      NatToStringInjective(a / 10, b / 10);
    } else if a < 10 && b < 10 {
      assert s[0] == DigitChar(a) == DigitChar(b);
    }
  }

  /** Distinct numbers behind a common prefix and before a common suffix give distinct strings. */
  lemma DecoratedNatInjective(pre: string, a: nat, b: nat, post: string)
    requires pre + NatToString(a) + post == pre + NatToString(b) + post
    ensures a == b
  {
    var x := pre + NatToString(a) + post;
    var y := pre + NatToString(b) + post;
    assert |NatToString(a)| == |NatToString(b)|;
    assert x[|pre|..|pre| + |NatToString(a)|] == NatToString(a);
    assert y[|pre|..|pre| + |NatToString(b)|] == NatToString(b);
    NatToStringInjective(a, b);
  }
}
