/**
 * Variable standardisation: the distinct `?`-words of a query, in sorted
 * order, are renamed to `?vr0`, `?vr1`, ... by plain substring replacement,
 * with a fixed number of canonical names available.
 */
module VariableStandardizer {
  import opened PyStr
  import opened Rewrite
  import opened StrOrder
  import opened Outcomes

  /** A word whose first character is `?`. */
  predicate IsVariable(t: string) {
    |t| > 0 && t[0] == '?'
  }

  /** `[x for x in ts if x[0] == "?"]`. */
  function VariableTokens(ts: seq<string>): (vs: seq<string>)
    ensures forall x :: x in vs <==> x in ts && IsVariable(x)
    decreases |ts|
  {
    if ts == [] then []
    else
      assert forall x :: x in ts <==> x == ts[0] || x in ts[1..];
      if IsVariable(ts[0]) then [ts[0]] + VariableTokens(ts[1..]) else VariableTokens(ts[1..])
  }

  /** The distinct variables of a query as a set. */
  ghost function VariableSet(s: string): set<string> {
    set x | x in Split(s) && IsVariable(x)
  }

  /** `sorted(set(x for x in s.split() if x[0] == "?"))`. */
  function Variables(s: string): seq<string> {
    SortedSet(VariableTokens(Split(s)))
  }

  /** `f"?vr{i}"`. */
  function CanonicalName(i: nat): string {
    "?vr" + NatToString(i)
  }

  /** `[f"?vr{i}" for i in range(n)]`. */
  function NewVars(n: nat): (names: seq<string>)
    ensures |names| == n
    ensures forall i :: 0 <= i < n ==> names[i] == CanonicalName(i)
  {
    seq(n, i requires 0 <= i => CanonicalName(i))
  }

  /** The i-th variable paired with the i-th new name. */
  function Renaming(vars: seq<string>, names: seq<string>): (rules: seq<(string, string)>)
    requires |vars| <= |names|
    ensures |rules| == |vars|
    ensures forall i :: 0 <= i < |vars| ==> rules[i] == (vars[i], names[i])
  {
    seq(|vars|, i requires 0 <= i < |vars| => (vars[i], names[i]))
  }

  /**
   * The whole renaming: `IndexError` once the sorted variables outnumber the
   * `capacity` canonical names, otherwise every variable replaced, in rank
   * order, by its canonical name.
   */
  function Standardize(s: string, capacity: nat): Result<string> {
    var vars := Variables(s);
    if |vars| > capacity then Failure(IndexError)
    else Success(ApplyRules(s, Renaming(vars, NewVars(capacity))))
  }

  /** The renaming loop: `for i, var in enumerate(sorted(variables)): sparql = sparql.replace(var, newvars[i])`. */
  method StandardizeWith(sparql: string, numVars: nat) returns (r: Result<string>)
    ensures r == Standardize(sparql, numVars)
  {
    var newvars := NewVars(numVars);
    var variables := Variables(sparql);
    var s := sparql;
    var i := 0;
    while i < |variables|
      invariant 0 <= i <= |variables| && i <= numVars
      invariant s == ApplyRules(sparql, Renaming(variables[..i], newvars))
    {
      if i >= |newvars| {
        return Failure(IndexError);
      }
      assert Renaming(variables[..i + 1], newvars)[..i] == Renaming(variables[..i], newvars);
      s := Replace(s, variables[i], newvars[i]);
      i := i + 1;
    }
    assert variables[..i] == variables;
    return Success(s);
  }

  // ---------------------------------------------------------------------------
  // Properties

  /** The ranked variables are the distinct `?`-words of the query, in strictly increasing order. */
  lemma VariablesSpec(s: string)
    ensures StrictlySorted(Variables(s))
    ensures forall x :: x in Variables(s) <==> x in Split(s) && IsVariable(x)
    ensures |Variables(s)| == |VariableSet(s)|
  {
    SortedSetSpec(VariableTokens(Split(s)));
    var vs := Variables(s);
    StrictlySortedDistinct(vs);
    DistinctCard(vs);
    assert (set x | x in vs) == VariableSet(s);
  }

  lemma StrictlySortedDistinct(xs: seq<string>)
    requires StrictlySorted(xs)
    ensures Distinct(xs)
  {
    forall i, j | 0 <= i < j < |xs|
      ensures xs[i] != xs[j]
    {
      if xs[i] == xs[j] {
        LessIrreflexive(xs[i]);
      }
    }
  }

  /**
   * In a strictly increasing listing, an element's position is its rank: the
   * number of listed elements smaller than it.
   */
  lemma RankIsIndex(xs: seq<string>, i: nat)
    requires StrictlySorted(xs) && i < |xs|
    ensures |set w | w in xs && Less(w, xs[i])| == i
  {
    var smaller := set w | w in xs && Less(w, xs[i]);
    forall w
      ensures w in smaller <==> w in xs[..i]
    {
      if w in smaller {
        var k :| 0 <= k < |xs| && xs[k] == w;
        if k >= i {
          if k == i {
            LessIrreflexive(w);
          } else {
            LessAsymmetric(xs[i], w);
          }
        }
        assert xs[..i][k] == w;
      }
      if w in xs[..i] {
        var k :| 0 <= k < i && xs[..i][k] == w;
        assert xs[k] == w;
      }
    }
    assert smaller == set w | w in xs[..i];
    StrictlySortedDistinct(xs);
    assert Distinct(xs[..i]);
    DistinctCard(xs[..i]);
  }

  /**
   * Each variable is replaced by the canonical name of its sorted rank among
   * the query's distinct variables, and distinct variables get distinct names.
   */
  lemma RenamingByRank(s: string, capacity: nat, k: nat)
    requires |Variables(s)| <= capacity && k < |Variables(s)|
    ensures var v := Variables(s)[k];
      Renaming(Variables(s), NewVars(capacity))[k] ==
        (v, CanonicalName(|set w | w in Split(s) && IsVariable(w) && Less(w, v)|))
  {
    var vs := Variables(s);
    VariablesSpec(s);
    RankIsIndex(vs, k);
    assert (set w | w in Split(s) && IsVariable(w) && Less(w, vs[k])) == (set w | w in vs && Less(w, vs[k]));
  }

  /** The canonical names are pairwise distinct, so two variables never share a target. */
  lemma CanonicalNamesDistinct(i: nat, j: nat)
    requires CanonicalName(i) == CanonicalName(j)
    ensures i == j
  {
    DecoratedNatInjective("?vr", i, j, "");
    assert "?vr" + NatToString(i) + "" == CanonicalName(i);
    assert "?vr" + NatToString(j) + "" == CanonicalName(j);
  }

  /** Renaming fails exactly when there are more distinct variables than canonical names. */
  lemma StandardizeFailsIff(s: string, capacity: nat)
    ensures Standardize(s, capacity).Failure? <==> |VariableSet(s)| > capacity
    ensures Standardize(s, capacity).Failure? ==> Standardize(s, capacity).error == IndexError
  {
    VariablesSpec(s);
  }

  /** A query without `?`-words is returned unchanged. */
  lemma StandardizeNoVariables(s: string, capacity: nat)
    requires forall t :: t in Split(s) ==> !IsVariable(t)
    ensures Standardize(s, capacity) == Success(s)
  {
    VariablesSpec(s);
    assert Variables(s) == [];
  }

  lemma PrefixCaptureVariables()
    ensures Variables("?x ?xy") == ["?x", "?xy"]
  {
    assert Join(["?x", "?xy"]) == "?x ?xy";
    SplitJoin(["?x", "?xy"]);
    assert VariableTokens(["?x", "?xy"]) == ["?x", "?xy"];
    assert Dedup(["?x", "?xy"]) == ["?x", "?xy"];
    assert Less("?x", "?xy");
    assert Insert("?xy", []) == ["?xy"];
    assert Insert("?x", ["?xy"]) == ["?x", "?xy"];
  }

  lemma PrefixCaptureRules(capacity: nat)
    requires capacity >= 2
    ensures Renaming(["?x", "?xy"], NewVars(capacity)) == [("?x", "?vr0"), ("?xy", "?vr1")]
  {
    assert NatToString(0) == "0" && NatToString(1) == "1";
    assert CanonicalName(0) == "?vr0" && CanonicalName(1) == "?vr1";
    var names := NewVars(capacity);
    assert names[0] == "?vr0" && names[1] == "?vr1";
  }

  lemma ReplaceExample()
    ensures Replace("?x ?xy", "?x", "?vr0") == "?vr0 ?vr0y"
  {
  }

  /**
   * Substring replacement also rewrites a variable inside a longer one that
   * it prefixes: `?x` and `?xy` both start with `?x`, which sorts first, so
   * `?xy` becomes `?vr0y` and the rule for `?xy` no longer finds anything.
   */
  lemma PrefixCapture()
    ensures Standardize("?x ?xy", 6) == Success("?vr0 ?vr0y")
  {
    var s := "?x ?xy";
    var t := "?vr0 ?vr0y";
    PrefixCaptureVariables();
    PrefixCaptureRules(6);
    var rules := [("?x", "?vr0"), ("?xy", "?vr1")];
    assert Standardize(s, 6) == Success(ApplyRules(s, rules));
    assert rules[..1] == [("?x", "?vr0")] && rules[..1][..0] == [];
    assert ApplyRules(s, rules[..1]) == Replace(s, "?x", "?vr0");
    ReplaceExample();
    NoLongVariable();
    ReplaceAbsent(t, "?xy", "?vr1");
  }

  lemma NoLongVariable()
    ensures !Occurs("?vr0 ?vr0y", "?xy")
  {
    var t := "?vr0 ?vr0y";
    forall i | 0 <= i <= |t|
      ensures !StartsAt(t, "?xy", i)
    {
      if i + 3 <= |t| {
        assert t[i] != '?' || t[i + 1] != 'x';
      }
    }
  }
}
