/**
 * How the placeholders of a guarded query travel through the rest of gold
 * masking. Each `###d` the guard writes stands between quotes; the quote rule
 * of the spacing table turns those quotes into whitespace, so that from then
 * on every placeholder is a word of its own. No later rewrite breaks one up,
 * renaming never touches one, masking keeps it as a word, and restoring the
 * masked text then puts back the literal it stands for.
 */
module GuardedText {
  import opened PyStr
  import opened Rewrite
  import opened LiteralGuard
  import opened VariableStandardizer
  import opened TokenMap

  predicate IsDigit(c: char) {
    '0' <= c <= '9'
  }

  /** No quote in the text. */
  predicate QuoteFree(s: string) {
    forall i :: 0 <= i < |s| ==> s[i] != '\''
  }

  /** The character expected next to a placeholder: a quote, or whitespace once the quotes are spaced out. */
  predicate Fence(c: char, quoted: bool) {
    if quoted then c == '\'' else IsSpace(c)
  }

  /**
   * Every `#` of the text begins a one-digit placeholder with a fence
   * character before it (or the start of the text, when `f`) and a fence
   * character or the end of the text after it.
   */
  predicate Fenced(t: string, f: bool, quoted: bool)
    decreases |t|
  {
    if t == [] then true
    else if t[0] == '#' then
      f && StartsWithPlaceholder(t) && (|t| == 4 || Fence(t[4], quoted)) && Fenced(t[4..], false, quoted)
    else Fenced(t[1..], Fence(t[0], quoted), quoted)
  }

  /** Whether a fence (or, for an empty `a`, the start flag `f`) stands at the end of `a`. */
  function FenceAfter(a: string, f: bool, quoted: bool): bool {
    if a == [] then f else Fence(a[|a| - 1], quoted)
  }

  /**
   * A rewrite that cannot disturb a fenced placeholder: its pattern has no
   * `#` and does not start with a digit, its replacement has no `#`, and it
   * puts a fence back wherever its pattern starts or ends with one.
   */
  predicate KeepsPlaceholders(rule: (string, string), quoted: bool) {
    var (p, r) := rule;
    && |p| > 0 && HashFree(p) && HashFree(r) && !IsDigit(p[0])
    && (Fence(p[0], quoted) ==> r != [] && Fence(r[0], quoted))
    && (Fence(p[|p| - 1], quoted) ==> r != [] && Fence(r[|r| - 1], quoted))
  }

  // ---------------------------------------------------------------------------
  // Fenced text

  lemma FencedWeaken(t: string, f: bool, quoted: bool)
    requires Fenced(t, false, quoted)
    ensures Fenced(t, f, quoted)
  {
  }

  /** In fenced text every `#` begins a placeholder. */
  lemma {:induction false} FencedPlaceholders(t: string, f: bool, quoted: bool)
    requires Fenced(t, f, quoted)
    ensures HashesInPlaceholders(t)
    decreases |t|
  {
    if t != [] {
      if t[0] == '#' {
        FencedPlaceholders(t[4..], false, quoted);
      } else {
        FencedPlaceholders(t[1..], Fence(t[0], quoted), quoted);
      }
    }
  }

  lemma {:induction false} HashFreeFenced(s: string, f: bool, quoted: bool)
    requires HashFree(s)
    ensures Fenced(s, f, quoted)
    decreases |s|
  {
    if s != [] {
      HashFreeFenced(s[1..], Fence(s[0], quoted), quoted);
    }
  }

  /** A `#`-free prefix only carries the flag on to its last character. */
  lemma {:induction false} FencedAfterHashFree(a: string, z: string, f: bool, quoted: bool)
    requires HashFree(a)
    ensures Fenced(a + z, f, quoted) <==> Fenced(z, FenceAfter(a, f, quoted), quoted)
    decreases |a|
  {
    if a == [] {
      assert a + z == z;
    } else {
      assert (a + z)[1..] == a[1..] + z;
      FencedAfterHashFree(a[1..], z, Fence(a[0], quoted), quoted);
    }
  }

  /** A leading placeholder needs the flag, a fence or the end after it, and no placeholder straight after. */
  lemma FencedAfterPlaceholder(d: nat, z: string, f: bool, quoted: bool)
    requires 1 <= d <= 9
    ensures Fenced(Placeholder(d) + z, f, quoted) <==>
      f && (z == [] || Fence(z[0], quoted)) && Fenced(z, false, quoted)
  {
    PlaceholderShape(d);
    var t := Placeholder(d) + z;
    assert t[4..] == z;
  }

  /** A text that starts with a placeholder `###e` is that placeholder followed by the rest. */
  lemma SplitPlaceholder(y: string)
    requires StartsWithPlaceholder(y)
    ensures y == Placeholder(PlaceholderDigit(y)) + y[4..]
  {
    PlaceholderShape(PlaceholderDigit(y));
  }

  /** A match of a `#`-free pattern at the front ends before any `#` of the text. */
  lemma MatchBeforeHash(y: string, p: string, i: nat)
    requires StartsAt(y, p, 0) && HashFree(p) && i < |y| && y[i] == '#'
    ensures i >= |p|
  {
    StartsAtSlice(y, p, 0);
    assert forall m :: 0 <= m < |p| ==> y[m] == y[..|p|][m];
  }

  /** An occurrence of a placeholder cannot start inside the placeholder the text starts with. */
  lemma PlaceholderAligned(y: string, d: nat, i: nat)
    requires 1 <= d <= 9 && StartsWithPlaceholder(y) && StartsAt(y, Placeholder(d), i)
    ensures i == 0 || i >= 4
    ensures i == 0 ==> PlaceholderDigit(y) == d
  {
    PlaceholderShape(d);
    StartsAtSlice(y, Placeholder(d), i);
    assert y[i..i + 4] == Placeholder(d);
    assert y[i] == '#' && y[i + 1] == '#' && y[i + 2] == '#' && y[i + 3] == DigitChar(d);
  }

  /** The middle of an occurrence is an occurrence of the middle. */
  lemma StartsAtInner(s: string, a: string, p: string, b: string, i: nat)
    requires StartsAt(s, a + p + b, i)
    ensures StartsAt(s, p, i + |a|)
  {
    forall m | 0 <= m < |p|
      ensures s[i + |a| + m] == p[m]
    {
      StartsAtChar(s, a + p + b, i, |a| + m);
      assert (a + p + b)[|a| + m] == p[m];
    }
    StartsAtSlice(s, p, i + |a|);
    assert s[i + |a|..i + |a| + |p|] == p;
  }

  // ---------------------------------------------------------------------------
  // Rewrites keep fenced placeholders

  /** A text that starts with a fence still does after a rewrite that puts back a leading fence. */
  lemma ReplaceFenceStart(z: string, p: string, r: string, quoted: bool)
    requires |p| > 0 && (Fence(p[0], quoted) ==> r != [] && Fence(r[0], quoted))
    requires z == [] || Fence(z[0], quoted)
    ensures var t := Replace(z, p, r); t == [] || Fence(t[0], quoted)
  {
    ReplaceUnfold(z, p, r);
    if z != [] && StartsAt(z, p, 0) {
      StartsAtChar(z, p, 0, 0);
    }
  }

  lemma {:induction false} ReplaceKeepsFenced(y: string, p: string, r: string, f: bool, quoted: bool)
    requires KeepsPlaceholders((p, r), quoted) && Fenced(y, f, quoted)
    ensures Fenced(Replace(y, p, r), f, quoted)
    decreases |y|
  {
    ReplaceUnfold(y, p, r);
    if y == [] {
    } else if StartsAt(y, p, 0) {
      var z := y[|p|..];
      assert y == p + z by { StartsAtSlice(y, p, 0); }
      FencedAfterHashFree(p, z, f, quoted);
      ReplaceKeepsFenced(z, p, r, FenceAfter(p, f, quoted), quoted);
      FencedAfterHashFree(r, Replace(z, p, r), f, quoted);
      if !FenceAfter(p, f, quoted) {
        FencedWeaken(Replace(z, p, r), FenceAfter(r, f, quoted), quoted);
      }
    } else if y[0] == '#' {
      var e := PlaceholderDigit(y);
      var z := y[4..];
      SplitPlaceholder(y);
      FencedAfterPlaceholder(e, z, f, quoted);
      ReplaceAfterPlaceholder(e, z, p, r);
      ReplaceKeepsFenced(z, p, r, false, quoted);
      ReplaceFenceStart(z, p, r, quoted);
      FencedAfterPlaceholder(e, Replace(z, p, r), f, quoted);
    } else {
      var z := y[1..];
      assert y == [y[0]] + z;
      FencedAfterHashFree([y[0]], z, f, quoted);
      ReplaceKeepsFenced(z, p, r, Fence(y[0], quoted), quoted);
      FencedAfterHashFree([y[0]], Replace(z, p, r), f, quoted);
    }
  }

  /** A placeholder that occurs in the text still occurs after a rewrite whose pattern has no `#` and does not start with a digit. */
  lemma {:induction false} ReplaceKeepsPlaceholder(y: string, p: string, r: string, d: nat, i: nat)
    requires |p| > 0 && HashFree(p) && !IsDigit(p[0])
    requires 1 <= d <= 9 && HashesInPlaceholders(y) && StartsAt(y, Placeholder(d), i)
    ensures Occurs(Replace(y, p, r), Placeholder(d))
    decreases |y|
  {
    PlaceholderShape(d);
    StartsAtChar(y, Placeholder(d), i, 0);
    ReplaceUnfold(y, p, r);
    if StartsAt(y, p, 0) {
      var z := y[|p|..];
      MatchBeforeHash(y, p, i);
      StartsAtShift(y, Placeholder(d), |p|, i);
      assert y == p + z by { StartsAtSlice(y, p, 0); }
      HashFreePrefix(p, z, [], 0);
      ReplaceKeepsPlaceholder(z, p, r, d, i - |p|);
      var j :| 0 <= j <= |Replace(z, p, r)| && StartsAt(Replace(z, p, r), Placeholder(d), j);
      StartsAtAppend(r, Replace(z, p, r), Placeholder(d), j);
    } else if y[0] == '#' {
      var e := PlaceholderDigit(y);
      var z := y[4..];
      SplitPlaceholder(y);
      ReplaceAfterPlaceholder(e, z, p, r);
      PlaceholderAligned(y, d, i);
      if i == 0 {
        StartsAtSlice(Placeholder(e) + Replace(z, p, r), Placeholder(d), 0);
      } else {
        StartsAtShift(y, Placeholder(d), 4, i);
        PlaceholderPrefix(e, z, [], 0);
        ReplaceKeepsPlaceholder(z, p, r, d, i - 4);
        var j :| 0 <= j <= |Replace(z, p, r)| && StartsAt(Replace(z, p, r), Placeholder(d), j);
        StartsAtAppend(Placeholder(e), Replace(z, p, r), Placeholder(d), j);
      }
    } else {
      var z := y[1..];
      StartsAtShift(y, Placeholder(d), 1, i);
      ReplaceKeepsPlaceholder(z, p, r, d, i - 1);
      var j :| 0 <= j <= |Replace(z, p, r)| && StartsAt(Replace(z, p, r), Placeholder(d), j);
      StartsAtAppend([y[0]], Replace(z, p, r), Placeholder(d), j);
    }
  }

  /** A table of such rewrites keeps the text fenced and every placeholder in it. */
  lemma {:induction false} ApplyRulesKeepsPlaceholders(y: string, rules: seq<(string, string)>, f: bool, quoted: bool, d: nat)
    requires forall k :: 0 <= k < |rules| ==> KeepsPlaceholders(rules[k], quoted)
    requires Fenced(y, f, quoted) && 1 <= d <= 9 && Occurs(y, Placeholder(d))
    ensures Fenced(ApplyRules(y, rules), f, quoted) && Occurs(ApplyRules(y, rules), Placeholder(d))
    decreases |rules|
  {
    if rules != [] {
      var init := rules[..|rules| - 1];
      var (p, r) := rules[|rules| - 1];
      ApplyRulesKeepsPlaceholders(y, init, f, quoted, d);
      var x := ApplyRules(y, init);
      ReplaceKeepsFenced(x, p, r, f, quoted);
      FencedPlaceholders(x, f, quoted);
      var i :| 0 <= i <= |x| && StartsAt(x, Placeholder(d), i);
      ReplaceKeepsPlaceholder(x, p, r, d, i);
    }
  }

  /** The quote rule turns the quotes around each placeholder into whitespace around it. */
  lemma {:induction false} QuoteRuleSpacesPlaceholders(y: string, f: bool)
    requires Fenced(y, f, true)
    ensures Fenced(Replace(y, "'", " ' "), f, false)
    decreases |y|
  {
    var p, r := "'", " ' ";
    ReplaceUnfold(y, p, r);
    if y == [] {
    } else if y[0] == '\'' {
      var z := y[1..];
      QuoteRuleSpacesPlaceholders(z, true);
      FencedAfterHashFree(r, Replace(z, p, r), f, false);
    } else if y[0] == '#' {
      var e := PlaceholderDigit(y);
      var z := y[4..];
      SplitPlaceholder(y);
      FencedAfterPlaceholder(e, z, f, true);
      ReplaceAfterPlaceholder(e, z, p, r);
      QuoteRuleSpacesPlaceholders(z, false);
      ReplaceUnfold(z, p, r);
      FencedAfterPlaceholder(e, Replace(z, p, r), f, false);
    } else {
      var z := y[1..];
      QuoteRuleSpacesPlaceholders(z, false);
      FencedWeaken(Replace(z, p, r), IsSpace(y[0]), false);
      FencedAfterHashFree([y[0]], Replace(z, p, r), f, false);
    }
  }

  /** A text that keeps every `#`, digit and fence of a fenced text, in place, is fenced too. */
  lemma {:induction false} SameShapeFenced(t: string, u: string, f: bool, quoted: bool)
    requires Fenced(t, f, quoted) && |u| == |t|
    requires forall m :: 0 <= m < |t| ==> (u[m] == '#' <==> t[m] == '#')
    requires forall m :: 0 <= m < |t| ==> (t[m] == '#' || IsDigit(t[m])) ==> u[m] == t[m]
    requires forall m :: 0 <= m < |t| ==> Fence(t[m], quoted) ==> Fence(u[m], quoted)
    ensures Fenced(u, f, quoted)
    decreases |t|
  {
    if t != [] {
      if t[0] == '#' {
        SameShapeFenced(t[4..], u[4..], false, quoted);
      } else {
        SameShapeFenced(t[1..], u[1..], Fence(t[0], quoted), quoted);
        if !Fence(t[0], quoted) {
          FencedWeaken(u[1..], Fence(u[0], quoted), quoted);
        }
      }
    }
  }

  /** Lower-casing keeps a text fenced and every placeholder in it. */
  lemma LowerKeepsPlaceholders(t: string, f: bool, quoted: bool, d: nat)
    requires Fenced(t, f, quoted) && 1 <= d <= 9 && Occurs(t, Placeholder(d))
    ensures Fenced(Lower(t), f, quoted) && Occurs(Lower(t), Placeholder(d))
  {
    var u := Lower(t);
    SameShapeFenced(t, u, f, quoted);
    var i :| 0 <= i <= |t| && StartsAt(t, Placeholder(d), i);
    PlaceholderShape(d);
    StartsAtSlice(t, Placeholder(d), i);
    StartsAtSlice(u, Placeholder(d), i);
    assert forall m :: i <= m < i + 4 ==> t[m] == t[i..i + 4][m - i];
    assert u[i..i + 4] == t[i..i + 4];
  }

  // ---------------------------------------------------------------------------
  // The guard

  /** Guarding one literal keeps the text fenced by quotes. */
  lemma {:induction false} GuardRuleKeepsFenced(y: string, lit: string, d: nat, f: bool)
    requires Fenced(y, f, true) && HashFree(lit) && 1 <= d <= 9
    ensures Fenced(Replace(y, "'" + lit + "'", "'" + Placeholder(d) + "'"), f, true)
    decreases |y|
  {
    var p, r := "'" + lit + "'", "'" + Placeholder(d) + "'";
    ReplaceUnfold(y, p, r);
    QuotedHashFree(lit);
    PlaceholderShape(d);
    if y == [] {
    } else if StartsAt(y, p, 0) {
      var z := y[|p|..];
      assert y == p + z by { StartsAtSlice(y, p, 0); }
      FencedAfterHashFree(p, z, f, true);
      GuardRuleKeepsFenced(z, lit, d, true);
      var rz := Replace(z, p, r);
      assert r + rz == "'" + (Placeholder(d) + ("'" + rz)) by { Regroup("'", Placeholder(d), "'", rz); }
      FencedAfterHashFree("'", rz, false, true);
      FencedAfterPlaceholder(d, "'" + rz, true, true);
      FencedAfterHashFree("'", Placeholder(d) + ("'" + rz), f, true);
    } else if y[0] == '#' {
      var e := PlaceholderDigit(y);
      var z := y[4..];
      SplitPlaceholder(y);
      FencedAfterPlaceholder(e, z, f, true);
      ReplaceAfterPlaceholder(e, z, p, r);
      GuardRuleKeepsFenced(z, lit, d, false);
      ReplaceFenceStart(z, p, r, true);
      FencedAfterPlaceholder(e, Replace(z, p, r), f, true);
    } else {
      var z := y[1..];
      assert y == [y[0]] + z;
      FencedAfterHashFree([y[0]], z, f, true);
      GuardRuleKeepsFenced(z, lit, d, Fence(y[0], true));
      FencedAfterHashFree([y[0]], Replace(z, p, r), f, true);
    }
  }

  /** The guarded query has every placeholder between quotes. */
  lemma {:induction false} GuardKeepsFenced(s: string, lits: seq<string>, j: nat)
    requires HashFree(s) && j <= |lits| <= 9
    requires forall k :: 0 <= k < |lits| ==> HashFree(Stripped(lits)[k])
    ensures Fenced(ApplyRules(s, GuardRules(lits)[..j]), true, true)
    decreases j
  {
    if j == 0 {
      assert GuardRules(lits)[..0] == [];
      HashFreeFenced(s, true, true);
    } else {
      GuardKeepsFenced(s, lits, j - 1);
      assert GuardRules(lits)[..j][..j - 1] == GuardRules(lits)[..j - 1];
      assert HashFree(Strip(lits[j - 1])) by { assert Stripped(lits)[j - 1] == LiteralTable(lits)[j - 1].1; }
      GuardRuleKeepsFenced(ApplyRules(s, GuardRules(lits)[..j - 1]), Strip(lits[j - 1]), j, true);
    }
  }

  /** Two quoted runs with different quote-free insides share at most a quote. */
  lemma QuotedRunsAligned(y: string, lit: string, other: string, i: nat)
    requires QuoteFree(lit) && QuoteFree(other)
    requires StartsAt(y, "'" + lit + "'", 0) && StartsAt(y, "'" + other + "'", i)
    ensures i >= |lit| + 1 || (i == 0 && lit == other)
  {
    var p, q := "'" + lit + "'", "'" + other + "'";
    StartsAtSlice(y, p, 0);
    StartsAtSlice(y, q, i);
    assert y[..|p|] == p && y[i..i + |q|] == q;
    assert y[|lit| + 1] == '\'' && y[i] == '\'' && y[i + |other| + 1] == '\'';
    assert forall m :: 1 <= m <= |lit| ==> y[m] == lit[m - 1];
    assert forall m :: i + 1 <= m <= i + |other| ==> y[m] == other[m - i - 1];
    if i == 0 && |lit| == |other| {
      assert forall m :: 0 <= m < |lit| ==> lit[m] == y[m + 1] == other[m];
    }
  }

  /** A text that starts with a quote-free run and a quote still does after a quoted pattern is rewritten to a quoted text. */
  lemma QuoteFreeHead(z: string, m: string, p: string, r: string)
    requires QuoteFree(m) && |p| > 0 && p[0] == '\'' && r != [] && r[0] == '\''
    requires StartsAt(z, m + "'", 0)
    ensures StartsAt(Replace(z, p, r), m + "'", 0)
  {
    StartsAtSlice(z, m + "'", 0);
    assert z[..|m| + 1] == m + "'";
    forall k | 0 <= k < |m|
      ensures !StartsAt(z, p, k)
    {
      assert z[k] == z[..|m| + 1][k] == m[k];
    }
    ReplaceKeepsPrefix(z, p, r, |m|);
    var w := z[|m|..];
    assert w[0] == z[..|m| + 1][|m|] == '\'';
    ReplaceUnfold(w, p, r);
    var rw := Replace(w, p, r);
    assert rw != [] && rw[0] == '\'';
    assert z[..|m|] == z[..|m| + 1][..|m|] == (m + "'")[..|m|] == m;
    var t := z[..|m|] + rw;
    assert t[..|m| + 1] == m + [rw[0]];
    StartsAtSlice(t, m + "'", 0);
  }

  /** Guarding one literal leaves a quoted run of a different literal in place. */
  lemma {:induction false} QuotedRunSurvives(y: string, lit: string, other: string, r: string, i: nat)
    requires QuoteFree(lit) && QuoteFree(other) && lit != other
    requires r != [] && r[0] == '\'' && r[|r| - 1] == '\''
    requires StartsAt(y, "'" + other + "'", i)
    ensures Occurs(Replace(y, "'" + lit + "'", r), "'" + other + "'")
    decreases |y|
  {
    var p, q := "'" + lit + "'", "'" + other + "'";
    ReplaceUnfold(y, p, r);
    StartsAtChar(y, q, i, 0);
    StartsAtSlice(y, q, i);
    if StartsAt(y, p, 0) {
      QuotedRunsAligned(y, lit, other, i);
      var z := y[|p|..];
      assert y == p + z by { StartsAtSlice(y, p, 0); }
      var rz := Replace(z, p, r);
      if i == |p| - 1 {
        assert z[..|other| + 1] == y[i..i + |q|][1..] == other + "'";
        StartsAtSlice(z, other + "'", 0);
        QuoteFreeHead(z, other, p, r);
        StartsAtSlice(rz, other + "'", 0);
        assert (r + rz)[|r| - 1..|r| - 1 + |q|] == [r[|r| - 1]] + rz[..|other| + 1];
        StartsAtSlice(r + rz, q, |r| - 1);
      } else {
        StartsAtShift(y, q, |p|, i);
        QuotedRunSurvives(z, lit, other, r, i - |p|);
        var j :| 0 <= j <= |rz| && StartsAt(rz, q, j);
        StartsAtAppend(r, rz, q, j);
      }
    } else {
      var z := y[1..];
      var rz := Replace(z, p, r);
      if i == 0 {
        assert z[..|other| + 1] == y[..|q|][1..] == other + "'";
        StartsAtSlice(z, other + "'", 0);
        QuoteFreeHead(z, other, p, r);
        StartsAtSlice(rz, other + "'", 0);
        assert ([y[0]] + rz)[..|q|] == [y[0]] + rz[..|other| + 1];
        StartsAtSlice([y[0]] + rz, q, 0);
      } else {
        StartsAtShift(y, q, 1, i);
        QuotedRunSurvives(z, lit, other, r, i - 1);
        var j :| 0 <= j <= |rz| && StartsAt(rz, q, j);
        StartsAtAppend([y[0]], rz, q, j);
      }
    }
  }

  /** The quoted run of a literal that differs from every literal before it survives the guarding of those. */
  lemma {:induction false} QuotedLiteralSurvives(s: string, lits: seq<string>, j: nat, k: nat, i: nat)
    requires k <= j < |lits| <= 9
    requires forall m :: 0 <= m < |lits| ==> QuoteFree(lits[m]) && Strip(lits[m]) == lits[m]
    requires forall m :: 0 <= m < j ==> lits[m] != lits[j]
    requires StartsAt(s, "'" + lits[j] + "'", i)
    ensures Occurs(ApplyRules(s, GuardRules(lits)[..k]), "'" + lits[j] + "'")
    decreases k
  {
    if k == 0 {
      assert GuardRules(lits)[..0] == [];
    } else {
      QuotedLiteralSurvives(s, lits, j, k - 1, i);
      var y := ApplyRules(s, GuardRules(lits)[..k - 1]);
      assert GuardRules(lits)[..k][..k - 1] == GuardRules(lits)[..k - 1];
      var i' :| 0 <= i' <= |y| && StartsAt(y, "'" + lits[j] + "'", i');
      PlaceholderShape(k);
      QuotedRunSurvives(y, lits[k - 1], lits[j], "'" + Placeholder(k) + "'", i');
    }
  }

  /** Later guard rules keep a placeholder already written. */
  lemma {:induction false} PlaceholderSurvivesGuard(s: string, lits: seq<string>, j: nat, k: nat)
    requires HashFree(s) && j < k <= |lits| <= 9
    requires forall m :: 0 <= m < |lits| ==> HashFree(Stripped(lits)[m])
    requires Occurs(ApplyRules(s, GuardRules(lits)[..j + 1]), Placeholder(j + 1))
    ensures Occurs(ApplyRules(s, GuardRules(lits)[..k]), Placeholder(j + 1))
    decreases k
  {
    if k > j + 1 {
      PlaceholderSurvivesGuard(s, lits, j, k - 1);
      var y := ApplyRules(s, GuardRules(lits)[..k - 1]);
      assert GuardRules(lits)[..k][..k - 1] == GuardRules(lits)[..k - 1];
      GuardPrefix(s, lits, k - 1);
      var i :| 0 <= i <= |y| && StartsAt(y, Placeholder(j + 1), i);
      QuotedHashFree(Stripped(lits)[k - 1]);
      ReplaceKeepsPlaceholder(y, "'" + Strip(lits[k - 1]) + "'", "'" + Placeholder(k) + "'", j + 1, i);
    }
  }

  /**
   * The placeholder of a stripped literal that differs from every literal
   * before it occurs in the guarded query.
   */
  lemma GuardLeavesPlaceholder(s: string, j: nat)
    requires HashFree(s) && j < |FindLiterals(s)| <= 9
    requires forall m :: 0 <= m < |FindLiterals(s)| ==> Strip(FindLiterals(s)[m]) == FindLiterals(s)[m]
    requires forall m :: 0 <= m < j ==> FindLiterals(s)[m] != FindLiterals(s)[j]
    ensures Occurs(Protect(s).0, Placeholder(j + 1))
  {
    var lits := FindLiterals(s);
    FindLiteralsSpec(s);
    LiteralsHashFree(s);
    var q := "'" + lits[j] + "'";
    var (a, b) := QuoteSpans(s)[j];
    assert s[a..b + 1] == q;
    StartsAtSlice(s, q, a);
    QuotedLiteralSurvives(s, lits, j, j, a);
    var y := ApplyRules(s, GuardRules(lits)[..j]);
    var ph := "'" + Placeholder(j + 1) + "'";
    ReplaceIntroduces(y, q, ph);
    var x := ApplyRules(s, GuardRules(lits)[..j + 1]);
    assert GuardRules(lits)[..j + 1][..j] == GuardRules(lits)[..j];
    assert x == Replace(y, q, ph);
    var i :| 0 <= i <= |x| && StartsAt(x, ph, i);
    StartsAtInner(x, "'", Placeholder(j + 1), "'", i);
    PlaceholderSurvivesGuard(s, lits, j, |lits|);
    assert GuardRules(lits)[..|lits|] == GuardRules(lits);
  }

  // ---------------------------------------------------------------------------
  // Renaming

  /** Renaming keeps a spaced-out text fenced and every placeholder in it. */
  lemma StandardizeKeepsPlaceholders(s: string, capacity: nat, d: nat)
    requires Fenced(s, true, false) && 1 <= d <= 9 && Occurs(s, Placeholder(d))
    requires Standardize(s, capacity).Success?
    ensures Fenced(Standardize(s, capacity).value, true, false)
    ensures Occurs(Standardize(s, capacity).value, Placeholder(d))
  {
    var vars := Variables(s);
    VariablesSpec(s);
    FencedWords(s, true);
    var rules := Renaming(vars, NewVars(capacity));
    forall k | 0 <= k < |rules|
      ensures KeepsPlaceholders(rules[k], false)
    {
      var v := vars[k];
      assert v in Split(s) && IsVariable(v);
      RenamingKeepsPlaceholders(v, k);
    }
    ApplyRulesKeepsPlaceholders(s, rules, true, false, d);
  }

  /** Renaming a variable word to its canonical name cannot disturb a spaced-out placeholder. */
  lemma RenamingKeepsPlaceholders(v: string, k: nat)
    requires IsToken(v) && IsVariable(v)
    requires HashFree(v) || (|v| == 4 && StartsWithPlaceholder(v))
    ensures KeepsPlaceholders((v, CanonicalName(k)), false)
  {
    var name := CanonicalName(k);
    assert name == "?vr" + NatToString(k);
    assert forall m :: 3 <= m < |name| ==> name[m] == NatToString(k)[m - 3];
    assert HashFree(name);
    assert !IsSpace(v[0]) && !IsSpace(v[|v| - 1]);
  }

  // ---------------------------------------------------------------------------
  // Words

  /** A word that does not start with `#` has none, and no placeholder may follow it directly. */
  lemma {:induction false} FencedWord(t: string, f: bool, e: nat)
    requires Fenced(t, f, false) && 0 < e <= |t| && t[0] != '#'
    requires forall m :: 0 <= m < e ==> !IsSpace(t[m])
    ensures HashFree(t[..e]) && Fenced(t[e..], false, false)
    decreases e
  {
    assert Fenced(t[1..], false, false);
    if e > 1 {
      assert t[1..][0] != '#';
      FencedWord(t[1..], false, e - 1);
      assert t[..e] == [t[0]] + t[1..][..e - 1];
      assert t[1..][e - 1..] == t[e..];
    } else {
      assert t[..1] == [t[0]];
    }
  }

  /**
   * Once placeholders stand between whitespace, every word that starts with
   * `#` is a placeholder and every other word has no `#`.
   */
  lemma {:induction false} FencedWords(t: string, f: bool)
    requires Fenced(t, f, false)
    ensures forall w :: w in Split(t) ==> HashFree(w) || (|w| == 4 && StartsWithPlaceholder(w))
    decreases |t|
  {
    SplitUnfold(t);
    if t != [] {
      if IsSpace(t[0]) {
        FencedWords(t[1..], true);
      } else if t[0] == '#' {
        var w := t[..4];
        assert t == w + t[4..];
        WordEndOfToken(w, t[4..]);
        FencedWords(t[4..], false);
      } else {
        var e := WordEnd(t, 0);
        FencedWord(t, f, e);
        FencedWords(t[e..], false);
      }
    }
  }

  /** Once placeholders stand between whitespace, every placeholder that occurs is a word. */
  lemma {:induction false} FencedWordOccurs(t: string, f: bool, d: nat, i: nat)
    requires Fenced(t, f, false) && 1 <= d <= 9 && StartsAt(t, Placeholder(d), i)
    ensures Placeholder(d) in Split(t)
    decreases |t|
  {
    PlaceholderShape(d);
    StartsAtChar(t, Placeholder(d), i, 0);
    SplitUnfold(t);
    if IsSpace(t[0]) {
      StartsAtShift(t, Placeholder(d), 1, i);
      FencedWordOccurs(t[1..], true, d, i - 1);
    } else if t[0] == '#' {
      var w := t[..4];
      assert t == w + t[4..];
      WordEndOfToken(w, t[4..]);
      PlaceholderAligned(t, d, i);
      if i == 0 {
        StartsAtSlice(t, Placeholder(d), 0);
      } else {
        StartsAtShift(t, Placeholder(d), 4, i);
        FencedWordOccurs(t[4..], false, d, i - 4);
      }
    } else {
      var e := WordEnd(t, 0);
      FencedWord(t, f, e);
      assert forall m :: 0 <= m < e ==> t[m] == t[..e][m];
      StartsAtShift(t, Placeholder(d), e, i);
      FencedWordOccurs(t[e..], false, d, i - e);
    }
  }

  /** Two texts with every `#` in a placeholder make one. */
  lemma {:induction false} PlaceholdersConcat(a: string, b: string)
    requires HashesInPlaceholders(a) && HashesInPlaceholders(b)
    ensures HashesInPlaceholders(a + b)
    decreases |a|
  {
    if a == [] {
      assert a + b == b;
    } else if a[0] == '#' {
      assert (a + b)[4..] == a[4..] + b;
      PlaceholdersConcat(a[4..], b);
    } else {
      assert (a + b)[1..] == a[1..] + b;
      PlaceholdersConcat(a[1..], b);
    }
  }

  /** Words with every `#` in a placeholder join into such a text. */
  lemma {:induction false} JoinPlaceholders(ws: seq<string>)
    requires forall k :: 0 <= k < |ws| ==> HashesInPlaceholders(ws[k])
    ensures HashesInPlaceholders(Join(ws))
    decreases |ws|
  {
    if |ws| > 1 {
      JoinPlaceholders(ws[1..]);
      HashFreePrefix(" ", Join(ws[1..]), [], 0);
      PlaceholdersConcat(ws[0], " " + Join(ws[1..]));
      assert Join(ws) == ws[0] + (" " + Join(ws[1..]));
    }
  }

  /** Every word occurs in the joined text. */
  lemma {:induction false} JoinContains(ws: seq<string>, k: nat)
    requires k < |ws|
    ensures Occurs(Join(ws), ws[k])
    decreases |ws|
  {
    if |ws| == 1 {
      StartsAtSlice(Join(ws), ws[k], 0);
    } else if k == 0 {
      var rest := " " + Join(ws[1..]);
      assert Join(ws) == ws[0] + rest;
      StartsAtSlice(ws[0] + rest, ws[0], 0);
    } else {
      JoinContains(ws[1..], k - 1);
      var j :| 0 <= j <= |Join(ws[1..])| && StartsAt(Join(ws[1..]), ws[1..][k - 1], j);
      StartsAtAppend(ws[0] + " ", Join(ws[1..]), ws[k], j);
      assert Join(ws) == (ws[0] + " ") + Join(ws[1..]);
    }
  }

  /**
   * Masking the words of a spaced-out text keeps every placeholder as a
   * word, and leaves every `#` of the joined result in a placeholder, when
   * no key or entry of the table contains `#`.
   */
  lemma MaskedWordsKeepPlaceholder(v: string, lut: map<string, string>, d: nat)
    requires Fenced(v, true, false) && 1 <= d <= 9 && Occurs(v, Placeholder(d))
    requires forall w :: w in lut ==> HashFree(w) && HashFree(lut[w])
    ensures HashesInPlaceholders(Join(SubstituteAll(lut, Split(v))))
    ensures Occurs(Join(SubstituteAll(lut, Split(v))), Placeholder(d))
  {
    var i :| 0 <= i <= |v| && StartsAt(v, Placeholder(d), i);
    FencedWordOccurs(v, true, d, i);
    FencedWords(v, true);
    var words := Split(v);
    var ws := SubstituteAll(lut, words);
    var q :| 0 <= q < |words| && words[q] == Placeholder(d);
    assert Placeholder(d)[0] == '#' by { PlaceholderShape(d); }
    assert ws[q] == Placeholder(d);
    forall m | 0 <= m < |ws|
      ensures HashesInPlaceholders(ws[m])
    {
      if words[m] in lut {
        HashFreeUnchanged(ws[m], [], 0);
      } else if HashFree(words[m]) {
        HashFreeUnchanged(words[m], [], 0);
      } else {
        assert words[m][4..] == [];
      }
    }
    JoinPlaceholders(ws);
    JoinContains(ws, q);
  }

  // ---------------------------------------------------------------------------
  // Restoration

  /** A placeholder that occurs in the text brings its value into the expansion. */
  lemma {:induction false} ExpandShowsValue(t: string, vals: seq<string>, m: nat, d: nat, i: nat)
    requires HashesInPlaceholders(t) && StartsAt(t, Placeholder(d), i)
    requires 1 <= d <= m && d <= |vals| && d <= 9
    ensures Occurs(Expand(t, vals, m), vals[d - 1])
    decreases |t|
  {
    PlaceholderShape(d);
    StartsAtChar(t, Placeholder(d), i, 0);
    if t[0] == '#' {
      var e := PlaceholderDigit(t);
      var z := t[4..];
      SplitPlaceholder(t);
      PlaceholderPrefix(e, z, vals, m);
      PlaceholderAligned(t, d, i);
      var head := if e <= m && e <= |vals| then vals[e - 1] else Placeholder(e);
      if i == 0 {
        StartsAtSlice(head + Expand(z, vals, m), vals[d - 1], 0);
      } else {
        StartsAtShift(t, Placeholder(d), 4, i);
        ExpandShowsValue(z, vals, m, d, i - 4);
        var j :| 0 <= j <= |Expand(z, vals, m)| && StartsAt(Expand(z, vals, m), vals[d - 1], j);
        StartsAtAppend(head, Expand(z, vals, m), vals[d - 1], j);
      }
    } else {
      var z := t[1..];
      assert t == [t[0]] + z;
      HashFreePrefix([t[0]], z, vals, m);
      StartsAtShift(t, Placeholder(d), 1, i);
      ExpandShowsValue(z, vals, m, d, i - 1);
      var j :| 0 <= j <= |Expand(z, vals, m)| && StartsAt(Expand(z, vals, m), vals[d - 1], j);
      StartsAtAppend([t[0]], Expand(z, vals, m), vals[d - 1], j);
    }
  }

  /** Restoring a text with a placeholder in it brings back that placeholder's literal, stripped. */
  lemma RestoreShowsLiteral(t: string, lits: seq<string>, d: nat)
    requires HashesInPlaceholders(t) && 1 <= d <= |lits| <= 9 && Occurs(t, Placeholder(d))
    requires forall m :: 0 <= m < |lits| ==> HashFree(Stripped(lits)[m])
    ensures Occurs(Restore(t, LiteralTable(lits)), Strip(lits[d - 1]))
  {
    var n := |lits|;
    var i :| 0 <= i <= |t| && StartsAt(t, Placeholder(d), i);
    assert LiteralTable(lits)[..n] == LiteralTable(lits);
    RestoreIsExpand(t, lits, n);
    ExpandShowsValue(t, Stripped(lits), n, d, i);
    assert Stripped(lits)[d - 1] == LiteralTable(lits)[d - 1].1;
  }

  /**
   * For a `#`-free query with at most nine literals, none with surrounding
   * whitespace, the guarded query has its placeholders between quotes, and
   * one of them stands for the `k`-th literal.
   */
  lemma GuardedPlaceholder(s: string, k: nat) returns (d: nat)
    requires HashFree(s) && k < |FindLiterals(s)| <= 9
    requires forall m :: 0 <= m < |FindLiterals(s)| ==> Strip(FindLiterals(s)[m]) == FindLiterals(s)[m]
    ensures 1 <= d <= |FindLiterals(s)| && Strip(FindLiterals(s)[d - 1]) == FindLiterals(s)[k]
    ensures Fenced(Protect(s).0, true, true) && Occurs(Protect(s).0, Placeholder(d))
  {
    var lits := FindLiterals(s);
    var j := FirstEqual(lits, k);
    d := j + 1;
    GuardLeavesPlaceholder(s, j);
    LiteralsHashFree(s);
    GuardKeepsFenced(s, lits, |lits|);
    assert GuardRules(lits)[..|lits|] == GuardRules(lits);
  }

  /** The first position holding the same literal as position `k`. */
  lemma FirstEqual(lits: seq<string>, k: nat) returns (j: nat)
    requires k < |lits|
    ensures j <= k && lits[j] == lits[k]
    ensures forall m :: 0 <= m < j ==> lits[m] != lits[j]
  {
    j := 0;
    while lits[j] != lits[k]
      invariant j <= k
      invariant forall m :: 0 <= m < j ==> lits[m] != lits[k]
      decreases k - j
    {
      j := j + 1;
    }
  }
}
