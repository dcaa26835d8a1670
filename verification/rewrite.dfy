/**
 * Ordered substring-rewriting tables: a sequence of (pattern, replacement)
 * pairs applied one after the other with `str.replace`, each exactly once and
 * strictly in table order. The punctuation table, the literal guard, literal
 * restoration, variable renaming and control-marker removal are all of this form.
 */
module Rewrite {
  import opened PyStr

  /** The keys of an ordered dict, in order: what iterating the dict itself yields. */
  function Keys<V>(d: seq<(string, V)>): (ks: seq<string>)
    ensures |ks| == |d|
    ensures forall i :: 0 <= i < |d| ==> ks[i] == d[i].0
  {
    seq(|d|, i requires 0 <= i < |d| => d[i].0)
  }

  /** `for p, r in rules: s = s.replace(p, r)`. */
  function ApplyRules(s: string, rules: seq<(string, string)>): string
    decreases |rules|
  {
    if rules == [] then s
    else
      var last := rules[|rules| - 1];
      Replace(ApplyRules(s, rules[..|rules| - 1]), last.0, last.1)
  }

  /** Running two tables back to back is running their concatenation. */
  lemma {:induction false} ApplyRulesAppend(s: string, a: seq<(string, string)>, b: seq<(string, string)>)
    ensures ApplyRules(s, a + b) == ApplyRules(ApplyRules(s, a), b)
    decreases |b|
  {
    if b == [] {
      assert a + b == a;
    } else {
      assert (a + b)[..|a + b| - 1] == a + b[..|b| - 1];
      ApplyRulesAppend(s, a, b[..|b| - 1]);
    }
  }

  /** A table none of whose patterns occurs in the text leaves it unchanged. */
  lemma {:induction false} ApplyRulesAbsent(s: string, rules: seq<(string, string)>)
    requires forall k :: 0 <= k < |rules| ==> |rules[k].0| > 0 && !Occurs(s, rules[k].0)
    ensures ApplyRules(s, rules) == s
    decreases |rules|
  {
    if rules != [] {
      ApplyRulesAbsent(s, rules[..|rules| - 1]);
      ReplaceAbsent(s, rules[|rules| - 1].0, rules[|rules| - 1].1);
    }
  }

  /** Every pattern of the table is non-empty and free of whitespace. */
  predicate WordPatterns(rules: seq<(string, string)>) {
    forall k :: 0 <= k < |rules| ==> |rules[k].0| > 0 && NoSpace(rules[k].0)
  }

  /** Whitespace at the end of a text survives a table of whitespace-free patterns. */
  lemma {:induction false} ApplyRulesKeepsLastSpace(s: string, rules: seq<(string, string)>)
    requires WordPatterns(rules)
    requires s != [] && IsSpace(s[|s| - 1])
    ensures var t := ApplyRules(s, rules); t != [] && t[|t| - 1] == s[|s| - 1]
    decreases |rules|
  {
    if rules != [] {
      var init := rules[..|rules| - 1];
      ApplyRulesKeepsLastSpace(s, init);
      ReplaceKeepsLastSpace(ApplyRules(s, init), rules[|rules| - 1].0, rules[|rules| - 1].1);
    }
  }

  /**
   * A table of whitespace-free patterns distributes over a concatenation whose
   * left part ends in whitespace: no pattern can straddle the seam.
   */
  lemma {:induction false} ApplyRulesConcat(x: string, y: string, rules: seq<(string, string)>)
    requires WordPatterns(rules)
    requires x != [] && IsSpace(x[|x| - 1])
    ensures ApplyRules(x + y, rules) == ApplyRules(x, rules) + ApplyRules(y, rules)
    decreases |rules|
  {
    if rules != [] {
      var init := rules[..|rules| - 1];
      var (p, r) := rules[|rules| - 1];
      ApplyRulesConcat(x, y, init);
      var x' := ApplyRules(x, init);
      var y' := ApplyRules(y, init);
      ApplyRulesKeepsLastSpace(x, init);
      forall k | 0 <= k < |x'| < k + |p|
        ensures !StartsAt(x' + y', p, k)
      {
        if StartsAt(x' + y', p, k) {
          OccurrenceInConcat(x', y', p, k);
        }
      }
      ReplaceConcat(x', y', p, r);
    }
  }

  /** `for p, r in rules: s = s.replace(p, r)`, one rule after the other. */
  method ReplaceAll(s: string, rules: seq<(string, string)>) returns (r: string)
    ensures r == ApplyRules(s, rules)
  {
    r := s;
    var k := 0;
    while k < |rules|
      invariant 0 <= k <= |rules|
      invariant r == ApplyRules(s, rules[..k])
    {
      assert rules[..k + 1][..k] == rules[..k];
      r := Replace(r, rules[k].0, rules[k].1);
      k := k + 1;
    }
    assert rules[..k] == rules;
  }
}
