/**
 * Protection of single-quoted literals. The n-th non-greedy `'...'` match of
 * a query (1-indexed, in document order, never crossing a line break) is
 * replaced by `'###n'` and remembered, stripped, under `###n`; restoration
 * replaces each placeholder by its text again.
 */
module LiteralGuard {
  import opened PyStr
  import opened Rewrite

  /** The first quote or line break at or after `j`, or the end of `s`. */
  function StopAt(s: string, j: nat): (k: nat)
    requires j <= |s|
    ensures j <= k <= |s|
    ensures forall m :: j <= m < k ==> s[m] != '\'' && s[m] != '\n'
    ensures k == |s| || s[k] == '\'' || s[k] == '\n'
    decreases |s| - j
  {
    if j == |s| || s[j] == '\'' || s[j] == '\n' then j else StopAt(s, j + 1)
  }

  /** A quote at `a`, the next quote at `b`, and no line break between them. */
  predicate QuotePair(s: string, a: nat, b: nat) {
    && a < b < |s|
    && s[a] == '\'' && s[b] == '\''
    && forall m :: a < m < b ==> s[m] != '\'' && s[m] != '\n'
  }

  /**
   * The spans `(open, close)` of the matches of `'(.*?)'` in `s[i..]`, left
   * to right and non-overlapping: a quote whose next quote comes before any
   * line break opens a match; otherwise the search moves on by one character.
   */
  function QuoteSpansFrom(s: string, i: nat): (spans: seq<(nat, nat)>)
    requires i <= |s|
    ensures forall k :: 0 <= k < |spans| ==> i <= spans[k].0 && QuotePair(s, spans[k].0, spans[k].1)
    ensures forall k :: 0 <= k < |spans| - 1 ==> spans[k].1 < spans[k + 1].0
    decreases |s| - i
  {
    if i == |s| then []
    else if s[i] == '\'' then
      var j := StopAt(s, i + 1);
      if j < |s| && s[j] == '\'' then [(i, j)] + QuoteSpansFrom(s, j + 1)
      else QuoteSpansFrom(s, i + 1)
    else QuoteSpansFrom(s, i + 1)
  }

  function QuoteSpans(s: string): seq<(nat, nat)> {
    QuoteSpansFrom(s, 0)
  }

  /** `re.findall(r"\'(.*?)\'", s)`: the text between the quotes of each match. */
  function FindLiterals(s: string): (lits: seq<string>)
    ensures |lits| == |QuoteSpans(s)|
  {
    var spans := QuoteSpans(s);
    seq(|spans|, k requires 0 <= k < |spans| => s[spans[k].0 + 1 .. spans[k].1])
  }

  /** Some quote is followed, before any line break, by another quote: `re.search` succeeds. */
  ghost predicate HasQuotedLiteral(s: string) {
    exists a, b :: 0 <= a < b < |s| && s[a] == '\'' && s[b] == '\'' &&
      forall m :: a < m < b ==> s[m] != '\n'
  }

  /** `f"###{n}"`. */
  function Placeholder(n: nat): string {
    "###" + NatToString(n)
  }

  /** The replacement made for the `k`-th literal (0-based): `'text'` becomes `'###k+1'`. */
  function GuardRules(lits: seq<string>): (rules: seq<(string, string)>)
    ensures |rules| == |lits|
    ensures forall k :: 0 <= k < |lits| ==>
      rules[k] == ("'" + Strip(lits[k]) + "'", "'" + Placeholder(k + 1) + "'")
  {
    seq(|lits|, k requires 0 <= k < |lits| => ("'" + Strip(lits[k]) + "'", "'" + Placeholder(k + 1) + "'"))
  }

  /** `hashi`, in insertion order: `###k+1` mapped to the `k`-th literal, stripped. */
  function LiteralTable(lits: seq<string>): (table: seq<(string, string)>)
    ensures |table| == |lits|
    ensures forall k :: 0 <= k < |lits| ==> table[k] == (Placeholder(k + 1), Strip(lits[k]))
  {
    seq(|lits|, k requires 0 <= k < |lits| => (Placeholder(k + 1), Strip(lits[k])))
  }

  /** The masked query and the literal table. */
  function Protect(s: string): (string, seq<(string, string)>) {
    var lits := FindLiterals(s);
    (ApplyRules(s, GuardRules(lits)), LiteralTable(lits))
  }

  /** `for key, val in hashi.items(): s = s.replace(key, val)`. */
  function Restore(s: string, table: seq<(string, string)>): string {
    ApplyRules(s, table)
  }

  // ---------------------------------------------------------------------------
  // Properties

  lemma {:induction false} ScanFindsPair(s: string, i: nat, a: nat, b: nat)
    requires i <= a < b < |s| && s[a] == '\'' && s[b] == '\''
    requires forall m :: a < m < b ==> s[m] != '\n'
    ensures QuoteSpansFrom(s, i) != []
    decreases a - i
  {
    if i == a {
      var j := StopAt(s, i + 1);
      assert j <= b;
    } else if !(s[i] == '\'' && StopAt(s, i + 1) < |s| && s[StopAt(s, i + 1)] == '\'') {
      ScanFindsPair(s, i + 1, a, b);
    }
  }

  /**
   * `re.search` and `re.findall` agree: the query has a quote pair on one line
   * exactly when at least one literal is found.
   */
  lemma FindLiteralsEmptyIff(s: string)
    ensures FindLiterals(s) == [] <==> !HasQuotedLiteral(s)
  {
    if HasQuotedLiteral(s) {
      var a, b :| 0 <= a < b < |s| && s[a] == '\'' && s[b] == '\'' &&
        forall m :: a < m < b ==> s[m] != '\n';
      ScanFindsPair(s, 0, a, b);
    }
    if QuoteSpans(s) != [] {
      var span := QuoteSpans(s)[0];
      assert QuotePair(s, span.0, span.1);
    }
  }

  /**
   * Each literal found is the text of a quoted run of the query, in document
   * order: it appears between quotes at its own position, contains no quote
   * and no line break, and ends before the next literal starts.
   */
  lemma FindLiteralsSpec(s: string)
    ensures forall k :: 0 <= k < |FindLiterals(s)| ==>
      var (a, b) := QuoteSpans(s)[k];
      && s[a..b + 1] == "'" + FindLiterals(s)[k] + "'"
      && (forall m :: 0 <= m < |FindLiterals(s)[k]| ==> FindLiterals(s)[k][m] != '\'' && FindLiterals(s)[k][m] != '\n')
    ensures forall k :: 0 <= k < |FindLiterals(s)| - 1 ==> QuoteSpans(s)[k].1 < QuoteSpans(s)[k + 1].0
  {
    var spans := QuoteSpans(s);
    var lits := FindLiterals(s);
    forall k | 0 <= k < |lits|
      ensures s[spans[k].0 .. spans[k].1 + 1] == "'" + lits[k] + "'"
      ensures forall m :: 0 <= m < |lits[k]| ==> lits[k][m] != '\'' && lits[k][m] != '\n'
    {
      var (a, b) := spans[k];
      assert QuotePair(s, a, b);
      assert lits[k] == s[a + 1 .. b];
      forall m | 0 <= m < |lits[k]|
        ensures lits[k][m] != '\'' && lits[k][m] != '\n'
      {
        assert lits[k][m] == s[a + 1 + m];
      }
    }
  }

  /** Without a quote pair the query is returned unchanged with an empty table. */
  lemma ProtectWithoutLiterals(s: string)
    requires !HasQuotedLiteral(s)
    ensures Protect(s) == (s, [])
  {
    FindLiteralsEmptyIff(s);
  }

  /** Placeholders are pairwise distinct, so the table has one entry per literal. */
  lemma PlaceholdersDistinct(lits: seq<string>, j: nat, k: nat)
    requires j < k < |lits|
    ensures LiteralTable(lits)[j].0 != LiteralTable(lits)[k].0
  {
    if Placeholder(j + 1) == Placeholder(k + 1) {
      assert "###" + NatToString(j + 1) + "" == Placeholder(j + 1);
      assert "###" + NatToString(k + 1) + "" == Placeholder(k + 1);
      DecoratedNatInjective("###", j + 1, k + 1, "");
    }
  }

  /**
   * Restoration is a plain substring replace: `###1` also matches the front of
   * `###10`, so the tenth placeholder is overwritten by the first literal's
   * text followed by `0`.
   */
  lemma RestoreCapturesLongerPlaceholder(v: string)
    ensures Restore("'###10'", [(Placeholder(1), v)]) == "'" + v + "0'"
  {
    var s := "'###10'";
    assert NatToString(1) == "1";
    var p := Placeholder(1);
    assert p == "###1";
    assert ApplyRules(s, []) == s;
    assert [(p, v)][..0] == [];
    assert Restore(s, [(p, v)]) == ApplyRules(s, [(p, v)]) == Replace(s, p, v);
    ReplaceUnfold(s, p, v);
    assert !StartsAt(s, p, 0);
    assert s[1..] == "###10'";
    ReplaceUnfold(s[1..], p, v);
    assert StartsAt(s[1..], p, 0);
    assert s[1..][4..] == "0'";
    ReplaceUnfold("0'", p, v);
    ReplaceUnfold("'", p, v);
    ReplaceUnfold("", p, v);
    assert "0'"[1..] == "'" && "'"[1..] == "";
  }
  // ---------------------------------------------------------------------------
  // Restoration undoes the guard
  //
  // With no `#` in the query and at most nine literals, every `#` of the
  // guarded query begins a one-digit placeholder `###d`. Restoring rule by
  // rule then equals expanding all placeholders at once, and each guard rule
  // leaves that expansion unchanged, so restoring the guarded query gives the
  // query back.

  /** No `#` in the text. */
  predicate HashFree(s: string) {
    forall i :: 0 <= i < |s| ==> s[i] != '#'
  }

  /** The text starts with a one-digit placeholder `###d`, `d` from 1 to 9. */
  predicate StartsWithPlaceholder(t: string) {
    |t| >= 4 && t[0] == '#' && t[1] == '#' && t[2] == '#' && '1' <= t[3] <= '9'
  }

  /** The number of the placeholder the text starts with. */
  function PlaceholderDigit(t: string): (d: nat)
    requires StartsWithPlaceholder(t)
    ensures 1 <= d <= 9
  {
    t[3] as int - '0' as int
  }

  /** Every `#` of the text begins a one-digit placeholder. */
  predicate HashesInPlaceholders(t: string)
    decreases |t|
  {
    if t == [] then true
    else if t[0] == '#' then StartsWithPlaceholder(t) && HashesInPlaceholders(t[4..])
    else HashesInPlaceholders(t[1..])
  }

  /** Every placeholder `###d` with `d <= m` replaced, all at once, by `vals[d - 1]`. */
  function Expand(t: string, vals: seq<string>, m: nat): string
    decreases |t|
  {
    if t == [] then []
    else if StartsWithPlaceholder(t) && PlaceholderDigit(t) <= m && PlaceholderDigit(t) <= |vals| then
      vals[PlaceholderDigit(t) - 1] + Expand(t[4..], vals, m)
    else [t[0]] + Expand(t[1..], vals, m)
  }

  /** The stripped literals, the values of the literal table. */
  function Stripped(lits: seq<string>): (vals: seq<string>)
    ensures |vals| == |lits|
    ensures forall k :: 0 <= k < |lits| ==> vals[k] == LiteralTable(lits)[k].1
  {
    seq(|lits|, k requires 0 <= k < |lits| => Strip(lits[k]))
  }

  /** A one-digit placeholder is three `#` and its digit. */
  lemma PlaceholderShape(d: nat)
    requires 1 <= d <= 9
    ensures Placeholder(d) == ['#', '#', '#', DigitChar(d)]
    ensures forall z :: StartsWithPlaceholder(Placeholder(d) + z) && PlaceholderDigit(Placeholder(d) + z) == d
  {
  }

  lemma StartsAtChar(s: string, p: string, i: nat, m: nat)
    requires StartsAt(s, p, i) && m < |p|
    ensures s[i + m] == p[m]
  {
    StartsAtSlice(s, p, i);
    assert s[i..i + |p|][m] == s[i + m];
  }

  /** Text without `#` is copied by the expansion, and has its `#` in placeholders exactly when what follows does. */
  lemma {:induction false} HashFreePrefix(a: string, z: string, vals: seq<string>, m: nat)
    requires HashFree(a)
    ensures Expand(a + z, vals, m) == a + Expand(z, vals, m)
    ensures HashesInPlaceholders(a + z) <==> HashesInPlaceholders(z)
    decreases |a|
  {
    if a != [] {
      assert (a + z)[1..] == a[1..] + z;
      HashFreePrefix(a[1..], z, vals, m);
      assert a == [a[0]] + a[1..];
    } else {
      assert a + z == z;
    }
  }

  /** A placeholder is expanded when its number is at most `m`, and copied otherwise. */
  lemma PlaceholderPrefix(d: nat, z: string, vals: seq<string>, m: nat)
    requires 1 <= d <= 9
    ensures Expand(Placeholder(d) + z, vals, m) ==
      (if d <= m && d <= |vals| then vals[d - 1] else Placeholder(d)) + Expand(z, vals, m)
    ensures HashesInPlaceholders(Placeholder(d) + z) <==> HashesInPlaceholders(z)
  {
    PlaceholderShape(d);
    var t := Placeholder(d) + z;
    assert t[4..] == z;
    if !(d <= m && d <= |vals|) {
      var c := DigitChar(d);
      assert t[1..] == ['#', '#', c] + z;
      assert t[1..][1..] == ['#', c] + z;
      assert t[1..][1..][1..] == [c] + z;
      assert ([c] + z)[1..] == z;
      assert Expand([c] + z, vals, m) == [c] + Expand(z, vals, m);
      assert Expand(['#', c] + z, vals, m) == ['#', c] + Expand(z, vals, m);
      assert Expand(['#', '#', c] + z, vals, m) == ['#', '#', c] + Expand(z, vals, m);
    }
  }

  /** `replace` of a placeholder copies a leading text without `#`. */
  lemma ReplaceAfterHashFree(a: string, z: string, p: string, r: string)
    requires HashFree(a) && |p| > 0 && p[0] == '#'
    ensures Replace(a + z, p, r) == a + Replace(z, p, r)
  {
    forall k | 0 <= k < |a|
      ensures !StartsAt(a + z, p, k)
    {
      assert (a + z)[k] == a[k];
    }
    ReplaceKeepsPrefix(a + z, p, r, |a|);
    assert (a + z)[..|a|] == a && (a + z)[|a|..] == z;
  }

  /** `replace` of a pattern that starts with neither `#` nor a digit copies a leading placeholder. */
  lemma ReplaceAfterPlaceholder(d: nat, z: string, p: string, r: string)
    requires 1 <= d <= 9 && |p| > 0 && p[0] != '#' && !('0' <= p[0] <= '9')
    ensures Replace(Placeholder(d) + z, p, r) == Placeholder(d) + Replace(z, p, r)
  {
    PlaceholderShape(d);
    var t := Placeholder(d) + z;
    forall k | 0 <= k < 4
      ensures !StartsAt(t, p, k)
    {
      assert t[k] == Placeholder(d)[k];
    }
    ReplaceKeepsPrefix(t, p, r, 4);
    assert t[..4] == Placeholder(d) && t[4..] == z;
  }

  /** `replace` of another placeholder copies a leading placeholder. */
  lemma ReplaceAfterOtherPlaceholder(d: nat, e: nat, z: string, r: string)
    requires 1 <= d <= 9 && 1 <= e <= 9 && d != e
    ensures Replace(Placeholder(d) + z, Placeholder(e), r) == Placeholder(d) + Replace(z, Placeholder(e), r)
  {
    PlaceholderShape(d);
    PlaceholderShape(e);
    var t := Placeholder(d) + z;
    var p := Placeholder(e);
    forall k | 0 <= k < 4
      ensures !StartsAt(t, p, k)
    {
      if StartsAt(t, p, k) {
        StartsAtChar(t, p, k, 3 - k);
      }
    }
    ReplaceKeepsPrefix(t, p, r, 4);
    assert t[..4] == Placeholder(d) && t[4..] == z;
  }

  /** `replace` of a placeholder at the front of the text. */
  lemma ReplacePlaceholderFirst(d: nat, z: string, r: string)
    requires 1 <= d <= 9
    ensures Replace(Placeholder(d) + z, Placeholder(d), r) == r + Replace(z, Placeholder(d), r)
  {
    PlaceholderShape(d);
    var t := Placeholder(d) + z;
    StartsAtSlice(t, Placeholder(d), 0);
    ReplaceUnfold(t, Placeholder(d), r);
    assert t[4..] == z;
  }

  /** Restoring placeholder `m + 1` after expanding those up to `m` expands those up to `m + 1`. */
  lemma {:induction false} RestoreStep(t: string, vals: seq<string>, m: nat)
    requires HashesInPlaceholders(t)
    requires m < |vals| <= 9 && forall j :: 0 <= j < |vals| ==> HashFree(vals[j])
    ensures Replace(Expand(t, vals, m), Placeholder(m + 1), vals[m]) == Expand(t, vals, m + 1)
    decreases |t|
  {
    var p := Placeholder(m + 1);
    PlaceholderShape(m + 1);
    if t == [] {
      ReplaceUnfold([], p, vals[m]);
    } else if t[0] == '#' {
      var d := PlaceholderDigit(t);
      PlaceholderShape(d);
      assert t == Placeholder(d) + t[4..];
      var z := t[4..];
      RestoreStep(z, vals, m);
      PlaceholderPrefix(d, z, vals, m);
      PlaceholderPrefix(d, z, vals, m + 1);
      if d <= m {
        ReplaceAfterHashFree(vals[d - 1], Expand(z, vals, m), p, vals[m]);
      } else if d == m + 1 {
        ReplacePlaceholderFirst(d, Expand(z, vals, m), vals[m]);
      } else {
        ReplaceAfterOtherPlaceholder(d, m + 1, Expand(z, vals, m), vals[m]);
      }
    } else {
      assert t == [t[0]] + t[1..];
      HashFreePrefix([t[0]], t[1..], vals, m);
      HashFreePrefix([t[0]], t[1..], vals, m + 1);
      RestoreStep(t[1..], vals, m);
      ReplaceAfterHashFree([t[0]], Expand(t[1..], vals, m), p, vals[m]);
    }
  }

  /** With no placeholder number allowed, the expansion is the identity. */
  lemma {:induction false} ExpandNothing(t: string, vals: seq<string>)
    ensures Expand(t, vals, 0) == t
    decreases |t|
  {
    if t != [] {
      ExpandNothing(t[1..], vals);
    }
  }

  /** Restoring with the first `m` entries of the table expands placeholders `###1` to `###m`. */
  lemma {:induction false} RestoreIsExpand(t: string, lits: seq<string>, m: nat)
    requires HashesInPlaceholders(t)
    requires m <= |lits| <= 9 && forall j :: 0 <= j < |lits| ==> HashFree(Stripped(lits)[j])
    ensures ApplyRules(t, LiteralTable(lits)[..m]) == Expand(t, Stripped(lits), m)
    decreases m
  {
    if m == 0 {
      ExpandNothing(t, Stripped(lits));
    } else {
      var table := LiteralTable(lits)[..m];
      assert table[..m - 1] == LiteralTable(lits)[..m - 1];
      RestoreIsExpand(t, lits, m - 1);
      RestoreStep(t, Stripped(lits), m - 1);
    }
  }

  /** A literal without `#`, in quotes, has no `#`. */
  lemma QuotedHashFree(lit: string)
    requires HashFree(lit)
    ensures HashFree("'" + lit + "'")
  {
    var a := "'" + lit + "'";
    forall i | 0 <= i < |a|
      ensures a[i] != '#'
    {
      if 0 < i < |a| - 1 {
        assert a[i] == lit[i - 1];
      }
    }
  }

  /** A replaced literal, `'` + placeholder + `'`, expands back to the literal in quotes. */
  lemma GuardedLiteral(z: string, g: string, vals: seq<string>, n: nat, d: nat)
    requires 1 <= d <= n <= |vals| <= 9 && HashFree(vals[d - 1])
    requires HashesInPlaceholders(g) && Expand(g, vals, n) == Expand(z, vals, n)
    ensures HashesInPlaceholders(("'" + Placeholder(d) + "'") + g)
    ensures Expand(("'" + Placeholder(d) + "'") + g, vals, n) == Expand(("'" + vals[d - 1] + "'") + z, vals, n)
  {
    var lit := vals[d - 1];
    var q := "'";
    var ph := Placeholder(d);
    var a := q + lit + q;
    var e := Expand(g, vals, n);
    var pg := ph + (q + g);
    assert Expand(a + z, vals, n) == a + e by {
      QuotedHashFree(lit);
      HashFreePrefix(a, z, vals, n);
    }
    assert Expand(pg, vals, n) == lit + (q + e) && HashesInPlaceholders(pg) by {
      HashFreePrefix(q, g, vals, n);
      PlaceholderPrefix(d, q + g, vals, n);
    }
    assert Expand(q + pg, vals, n) == q + Expand(pg, vals, n) && HashesInPlaceholders(q + pg) by {
      HashFreePrefix(q, pg, vals, n);
    }
    Regroup(q, ph, q, g);
    Regroup(q, lit, q, e);
  }

  lemma Regroup(a: string, b: string, c: string, d: string)
    ensures (a + b + c) + d == a + (b + (c + d))
  {
  }

  /** One guard rule keeps every `#` in a placeholder and leaves the full expansion unchanged. */
  lemma {:induction false} GuardStep(y: string, vals: seq<string>, n: nat, d: nat)
    requires HashesInPlaceholders(y)
    requires 1 <= d <= n <= |vals| <= 9 && HashFree(vals[d - 1])
    ensures var g := Replace(y, "'" + vals[d - 1] + "'", "'" + Placeholder(d) + "'");
      HashesInPlaceholders(g) && Expand(g, vals, n) == Expand(y, vals, n)
    decreases |y|
  {
    var a := "'" + vals[d - 1] + "'";
    var b := "'" + Placeholder(d) + "'";
    if y == [] {
      ReplaceUnfold(y, a, b);
    } else if StartsAt(y, a, 0) {
      StartsAtSlice(y, a, 0);
      var z := y[|a|..];
      assert y == a + z;
      QuotedHashFree(vals[d - 1]);
      HashFreePrefix(a, z, vals, n);
      GuardStep(z, vals, n, d);
      ReplaceUnfold(y, a, b);
      GuardedLiteral(z, Replace(z, a, b), vals, n, d);
    } else if y[0] == '#' {
      var e := PlaceholderDigit(y);
      PlaceholderShape(e);
      var z := y[4..];
      assert y == Placeholder(e) + z;
      GuardStep(z, vals, n, d);
      ReplaceAfterPlaceholder(e, z, a, b);
      PlaceholderPrefix(e, z, vals, n);
      PlaceholderPrefix(e, Replace(z, a, b), vals, n);
    } else {
      var z := y[1..];
      assert y == [y[0]] + z;
      GuardStep(z, vals, n, d);
      ReplaceUnfold(y, a, b);
      HashFreePrefix([y[0]], z, vals, n);
      HashFreePrefix([y[0]], Replace(z, a, b), vals, n);
    }
  }

  /** Text without `#` has all its `#` in placeholders, and expands to itself. */
  lemma HashFreeUnchanged(s: string, vals: seq<string>, m: nat)
    requires HashFree(s)
    ensures HashesInPlaceholders(s) && Expand(s, vals, m) == s
  {
    HashFreePrefix(s, [], vals, m);
    assert s + [] == s;
  }

  /** The literals of a query without `#`, stripped, have no `#`. */
  lemma LiteralsHashFree(s: string)
    requires HashFree(s)
    ensures forall k :: 0 <= k < |FindLiterals(s)| ==> HashFree(Stripped(FindLiterals(s))[k])
  {
    var lits := FindLiterals(s);
    var spans := QuoteSpans(s);
    forall k | 0 <= k < |lits|
      ensures HashFree(Stripped(lits)[k])
    {
      var lit := lits[k];
      assert lit == s[spans[k].0 + 1 .. spans[k].1];
      StripIsSlice(lit);
      var i, j :| 0 <= i <= j <= |lit| && Strip(lit) == lit[i..j];
      forall m | 0 <= m < |Strip(lit)|
        ensures Strip(lit)[m] != '#'
      {
        assert Strip(lit)[m] == s[spans[k].0 + 1 + i + m];
      }
    }
  }

  /** After the first `j` guard rules, every `#` is in a placeholder and the full expansion is the query. */
  lemma {:induction false} GuardPrefix(s: string, lits: seq<string>, j: nat)
    requires HashFree(s) && j <= |lits| <= 9
    requires forall k :: 0 <= k < |lits| ==> HashFree(Stripped(lits)[k])
    ensures HashesInPlaceholders(ApplyRules(s, GuardRules(lits)[..j]))
    ensures Expand(ApplyRules(s, GuardRules(lits)[..j]), Stripped(lits), |lits|) == s
    decreases j
  {
    var vals := Stripped(lits);
    if j == 0 {
      assert GuardRules(lits)[..0] == [];
      HashFreeUnchanged(s, vals, |lits|);
    } else {
      var rules := GuardRules(lits)[..j];
      assert rules[..j - 1] == GuardRules(lits)[..j - 1];
      assert rules[j - 1] == ("'" + vals[j - 1] + "'", "'" + Placeholder(j) + "'");
      GuardPrefix(s, lits, j - 1);
      GuardStep(ApplyRules(s, GuardRules(lits)[..j - 1]), vals, |lits|, j);
    }
  }

  /**
   * Restoration undoes the guard: for a query with no `#` and at most nine
   * literals, replacing each placeholder by its recorded text gives back the
   * query, literals with their case, spacing and punctuation included.
   */
  lemma RestoreUndoesProtect(s: string)
    requires HashFree(s) && |FindLiterals(s)| < 10
    ensures Restore(Protect(s).0, Protect(s).1) == s
  {
    var lits := FindLiterals(s);
    var n := |lits|;
    LiteralsHashFree(s);
    assert GuardRules(lits)[..n] == GuardRules(lits);
    GuardPrefix(s, lits, n);
    assert LiteralTable(lits)[..n] == LiteralTable(lits);
    RestoreIsExpand(Protect(s).0, lits, n);
  }
}
