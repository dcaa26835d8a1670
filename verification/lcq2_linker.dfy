/**
 * The reference entity/relation extractor of the LC-QuAD 2 baseline. It scans
 * an already normalised query (`wd: q76 `, `wdt: p26 `) for prefixed names,
 * labels each one from tables the caller supplies, and inserts `"null"` into
 * its relation table for relation ids it does not know.
 */
module LCQ2Linker {
  import opened PyStr
  import opened Outcomes

  // ---------------------------------------------------------------------------
  // `re.findall(r'<lit>(.*?) ', s)`

  /**
   * Where the lazy group starting at `k` ends: the first space, provided no
   * newline comes before it (`.` does not match a newline).
   */
  function FieldEnd(s: string, k: nat): (e: Option<nat>)
    requires k <= |s|
    ensures e.Some? ==> k <= e.value < |s| && s[e.value] == ' '
    ensures e.Some? ==> forall m :: k <= m < e.value ==> s[m] != ' ' && s[m] != '\n'
    decreases |s| - k
  {
    if k == |s| then None
    else if s[k] == ' ' then Some(k)
    else if s[k] == '\n' then None
    else FieldEnd(s, k + 1)
  }

  /** One match: the whole matched text and the group. */
  datatype Match = Match(whole: string, group: string)

  /**
   * The non-overlapping matches of `lit` followed by a lazy group and a space,
   * scanning left to right from `i`; after a match the scan resumes behind it.
   */
  function FindAll(s: string, lit: string, i: nat): (ms: seq<Match>)
    requires i <= |s|
    ensures forall k :: 0 <= k < |ms| ==> ms[k].whole == lit + ms[k].group + " "
    ensures forall k :: 0 <= k < |ms| ==> ' ' !in ms[k].group && '\n' !in ms[k].group
    decreases |s| - i
  {
    if i == |s| then []
    else if StartsAt(s, lit, i) && FieldEnd(s, i + |lit|).Some? then
      var e := FieldEnd(s, i + |lit|).value;
      StartsAtSlice(s, lit, i);
      assert s[i..e + 1] == s[i..i + |lit|] + s[i + |lit|..e] + " ";
      [Match(s[i..e + 1], s[i + |lit|..e])] + FindAll(s, lit, e + 1)
    else FindAll(s, lit, i + 1)
  }

  /** The relation matches: all `wdt:` ones, then all ` p:`, ` ps:` and `pq:` ones. */
  function RelationMatches(s: string): seq<Match> {
    FindAll(s, "wdt: ", 0) + FindAll(s, " p: ", 0) + FindAll(s, " ps: ", 0) + FindAll(s, "pq: ", 0)
  }

  /** The index of the first `:` at or after `i`, or `|s|`. */
  function ColonIndex(s: string, i: nat): (j: nat)
    requires i <= |s|
    ensures i <= j <= |s| && (j < |s| ==> s[j] == ':')
    ensures forall m :: i <= m < j ==> s[m] != ':'
    decreases |s| - i
  {
    if i == |s| || s[i] == ':' then i else ColonIndex(s, i + 1)
  }

  /** `s.split(":")[0]`. */
  function BeforeColon(s: string): (r: string)
    ensures ':' !in r
    ensures r == s || (|r| < |s| && s[|r|] == ':' && s[..|r|] == r)
  {
    s[..ColonIndex(s, 0)]
  }

  /** `s[1:]`. */
  function Tail(s: string): string {
    if s == [] then [] else s[1..]
  }

  // ---------------------------------------------------------------------------
  // Labelling

  /** One linked entity or relation: `{"prefix": …, "id": …, "label": …}` (`label` is a keyword here). */
  datatype Descriptor = Descriptor(prefix: string, id: string, labelText: string)

  /** The result dict: exactly the keys `ents` and `rels`. */
  datatype LinkResult = LinkResult(ents: seq<Descriptor>, rels: seq<Descriptor>)

  /** The error raised for an entity match holding a `}`. */
  function BraceMessage(sparql: string, whole: string): string {
    "} found, \nSparql: " + sparql + "\nReg Entity: " + whole
  }

  /** One pass of the entity loop. */
  function EntityDescriptor(entities: map<string, string>, sparql: string, m: Match): (r: Result<Descriptor>)
    ensures r.Success? <==> '}' !in m.whole && m.group in entities
    ensures r.Success? ==> r.value == Descriptor(BeforeColon(m.whole), m.group, entities[m.group])
  {
    if '}' in m.whole then Failure(ValueError(BraceMessage(sparql, m.whole)))
    else if m.group !in entities then Failure(KeyError(m.group))
    else Success(Descriptor(BeforeColon(m.whole), m.group, entities[m.group]))
  }

  /** `xs` in front of a successful list; a failure passes through. */
  function Prepend(xs: seq<Descriptor>, r: Result<seq<Descriptor>>): Result<seq<Descriptor>> {
    if r.Success? then Success(xs + r.value) else r
  }

  lemma PrependTwice(xs: seq<Descriptor>, ys: seq<Descriptor>, r: Result<seq<Descriptor>>)
    ensures Prepend(xs, Prepend(ys, r)) == Prepend(xs + ys, r)
    ensures Prepend([], r) == r
  {
    if r.Success? {
      assert xs + (ys + r.value) == (xs + ys) + r.value;
      assert [] + r.value == r.value;
    }
  }

  /** The entity loop over the matches `ms`: the first failing match raises. */
  function LinkEntities(entities: map<string, string>, sparql: string, ms: seq<Match>): Result<seq<Descriptor>>
    decreases |ms|
  {
    if ms == [] then Success([])
    else
      var d := EntityDescriptor(entities, sparql, ms[0]);
      if d.Failure? then Failure(d.error)
      else Prepend([d.value], LinkEntities(entities, sparql, ms[1..]))
  }

  /**
   * Which key the relation label is read from: as written, `"P" + id` (which
   * for `p26` is `Pp26`); corrected, `"P" + id[1:]`, the key checked and
   * inserted just before.
   */
  datatype LabelRule = AsWritten | Corrected

  function LabelKey(rule: LabelRule, id: string): string {
    match rule
    case AsWritten => "P" + id
    case Corrected => "P" + Tail(id)
  }

  /** The key the null insertion and the spacing step use: `"P" + id[1:]`. */
  function RelationKey(id: string): string {
    "P" + Tail(id)
  }

  /** The relation table after the null insertion for `id`. */
  function InsertNull(relations: map<string, string>, id: string): (r: map<string, string>)
    ensures RelationKey(id) in r || Upper(id) in r
  {
    if Upper(id) !in relations then relations[RelationKey(id) := "null"] else relations
  }

  /** One pass of the relation loop: the descriptor (or the error) and the table afterwards. */
  function RelationStep(relations: map<string, string>, m: Match, rule: LabelRule): (Result<Descriptor>, map<string, string>) {
    var rel := InsertNull(relations, m.group);
    var key := RelationKey(m.group);
    if key !in rel then (Failure(KeyError(key)), rel)
    else
      var whole := m.whole + rel[key] + " ";
      var labelKey := LabelKey(rule, m.group);
      if labelKey !in rel then (Failure(KeyError(labelKey)), rel)
      else (Success(Descriptor(BeforeColon(whole), m.group, rel[labelKey])), rel)
  }

  /** The relation loop: the descriptors (or the first error) and the final table. */
  function LinkRelations(relations: map<string, string>, ms: seq<Match>, rule: LabelRule): (Result<seq<Descriptor>>, map<string, string>)
    decreases |ms|
  {
    if ms == [] then (Success([]), relations)
    else
      var (d, rel) := RelationStep(relations, ms[0], rule);
      if d.Failure? then (Failure(d.error), rel)
      else
        var (rest, rel') := LinkRelations(rel, ms[1..], rule);
        (Prepend([d.value], rest), rel')
  }

  /** The relation loop from the `i`-th match on: one step, then the rest. */
  lemma RelationsUnfold(relations: map<string, string>, ms: seq<Match>, i: nat, rule: LabelRule)
    requires i < |ms|
    ensures var (d, rel) := RelationStep(relations, ms[i], rule);
      LinkRelations(relations, ms[i..], rule) ==
        if d.Failure? then (Failure(d.error), rel)
        else (Prepend([d.value], LinkRelations(rel, ms[i + 1..], rule).0), LinkRelations(rel, ms[i + 1..], rule).1)
  {
    assert ms[i..][1..] == ms[i + 1..] && ms[i..][0] == ms[i];
  }

  /** What `link` returns, and the relation table it leaves behind. */
  function LinkSpec(entities: map<string, string>, relations: map<string, string>, sparql: string, rule: LabelRule): (Result<LinkResult>, map<string, string>) {
    if sparql == [] then (Failure(AssertionError), relations)
    else
      var ents := LinkEntities(entities, sparql, FindAll(sparql, "wd: ", 0));
      if ents.Failure? then (Failure(ents.error), relations)
      else
        var (rels, rel') := LinkRelations(relations, RelationMatches(sparql), rule);
        if rels.Failure? then (Failure(rels.error), rel')
        else (Success(LinkResult(ents.value, rels.value)), rel')
  }

  // ---------------------------------------------------------------------------
  // The linker object

  class LCQ2WikiDataLinker {
    /** Entity id to label, e.g. `q36970` to `Jackie Chan`. */
    var entities: map<string, string>
    /** Capitalised relation id to label, e.g. `P26` to `spouse`; `link` adds to it. */
    var relations: map<string, string>

    /** The tables come in as values instead of being read from JSON files. */
    constructor(entities: map<string, string>, relations: map<string, string>)
      ensures this.entities == entities && this.relations == relations
    {
      this.entities := entities;
      this.relations := relations;
    }

    /** `link`, with the label read from the corrected key `"P" + id[1:]`. */
    method Link(utterance: string, sparql: string) returns (r: Result<LinkResult>)
      modifies this
      ensures entities == old(entities)
      ensures (r, relations) == LinkSpec(old(entities), old(relations), sparql, Corrected)
    {
      if sparql == [] {
        return Failure(AssertionError);
      }
      var ents := LinkAllEntities(sparql);
      if ents.Failure? {
        return Failure(ents.error);
      }
      var rels := LinkAllRelations(RelationMatches(sparql));
      if rels.Failure? {
        return Failure(rels.error);
      }
      r := Success(LinkResult(ents.value, rels.value));
    }

    /** The entity loop of `link`. */
    method LinkAllEntities(sparql: string) returns (r: Result<seq<Descriptor>>)
      ensures r == LinkEntities(entities, sparql, FindAll(sparql, "wd: ", 0))
    {
      var ms := FindAll(sparql, "wd: ", 0);
      var ents: seq<Descriptor> := [];
      var i := 0;
      assert ms[0..] == ms;
      PrependTwice([], [], LinkEntities(entities, sparql, ms));
      while i < |ms|
        invariant 0 <= i <= |ms|
        invariant LinkEntities(entities, sparql, ms) == Prepend(ents, LinkEntities(entities, sparql, ms[i..]))
      {
        assert ms[i..][1..] == ms[i + 1..] && ms[i..][0] == ms[i];
        if '}' in ms[i].whole {
          assert LinkEntities(entities, sparql, ms[i..]) == Failure(ValueError(BraceMessage(sparql, ms[i].whole)));
          return Failure(ValueError(BraceMessage(sparql, ms[i].whole)));
        }
        if ms[i].group !in entities {
          assert LinkEntities(entities, sparql, ms[i..]) == Failure(KeyError(ms[i].group));
          return Failure(KeyError(ms[i].group));
        }
        var d := Descriptor(BeforeColon(ms[i].whole), ms[i].group, entities[ms[i].group]);
        PrependTwice(ents, [d], LinkEntities(entities, sparql, ms[i + 1..]));
        ents := ents + [d];
        i := i + 1;
      }
      assert ms[i..] == [] && ents + [] == ents;
      r := Success(ents);
    }

    /** The relation loop of `link`; the null insertions stay in the table even when a later lookup raises. */
    method LinkAllRelations(ms: seq<Match>) returns (r: Result<seq<Descriptor>>)
      modifies this
      ensures entities == old(entities)
      ensures (r, relations) == LinkRelations(old(relations), ms, Corrected)
    {
      var rels: seq<Descriptor> := [];
      var i := 0;
      assert ms[0..] == ms;
      PrependTwice([], [], LinkRelations(relations, ms, Corrected).0);
      while i < |ms|
        invariant 0 <= i <= |ms|
        invariant entities == old(entities)
        invariant LinkRelations(old(relations), ms, Corrected).1 == LinkRelations(relations, ms[i..], Corrected).1
        invariant LinkRelations(old(relations), ms, Corrected).0 == Prepend(rels, LinkRelations(relations, ms[i..], Corrected).0)
      {
        ghost var before := relations;
        RelationsUnfold(before, ms, i, Corrected);
        var id := ms[i].group;
        if Upper(id) !in relations {
          relations := relations[RelationKey(id) := "null"];
        }
        var key := RelationKey(id);
        if key !in relations {
          return Failure(KeyError(key));
        }
        var whole := ms[i].whole + relations[key] + " ";
        var labelKey := LabelKey(Corrected, id);
        var d := Descriptor(BeforeColon(whole), id, relations[labelKey]);
        PrependTwice(rels, [d], LinkRelations(relations, ms[i + 1..], Corrected).0);
        rels := rels + [d];
        i := i + 1;
      }
      assert ms[i..] == [] && rels + [] == rels;
      r := Success(rels);
    }
  }

  // ---------------------------------------------------------------------------
  // Properties of `link`

  /** An empty query fails the opening assertion and leaves the table alone. */
  lemma LinkRequiresQuery(entities: map<string, string>, relations: map<string, string>, rule: LabelRule)
    ensures LinkSpec(entities, relations, "", rule) == (Failure(AssertionError), relations)
  {
  }

  /**
   * The entity loop succeeds exactly when no match holds a `}` and every id
   * is a key; then it yields one descriptor per match, in order.
   */
  lemma {:induction false} EntitiesSpec(entities: map<string, string>, sparql: string, ms: seq<Match>)
    ensures LinkEntities(entities, sparql, ms).Success? <==>
      forall i :: 0 <= i < |ms| ==> '}' !in ms[i].whole && ms[i].group in entities
    ensures LinkEntities(entities, sparql, ms).Success? ==>
      var ds := LinkEntities(entities, sparql, ms).value;
      && |ds| == |ms|
      && forall i :: 0 <= i < |ms| ==> ds[i] == Descriptor(BeforeColon(ms[i].whole), ms[i].group, entities[ms[i].group])
    decreases |ms|
  {
    if ms != [] {
      EntitiesSpec(entities, sparql, ms[1..]);
      assert forall i :: 1 <= i < |ms| ==> ms[1..][i - 1] == ms[i];
    }
  }

  /**
   * A failing entity loop fails at the first bad match, and a `}` in that
   * match raises `ValueError` before its id is looked up.
   */
  lemma {:induction false} FirstEntityFailure(entities: map<string, string>, sparql: string, ms: seq<Match>) returns (i: nat)
    requires LinkEntities(entities, sparql, ms).Failure?
    ensures i < |ms|
    ensures forall j :: 0 <= j < i ==> '}' !in ms[j].whole && ms[j].group in entities
    ensures LinkEntities(entities, sparql, ms).error ==
      if '}' in ms[i].whole then ValueError(BraceMessage(sparql, ms[i].whole)) else KeyError(ms[i].group)
    decreases |ms|
  {
    if EntityDescriptor(entities, sparql, ms[0]).Failure? {
      i := 0;
    } else {
      var k := FirstEntityFailure(entities, sparql, ms[1..]);
      i := k + 1;
      forall j | 0 <= j < i
        ensures '}' !in ms[j].whole && ms[j].group in entities
      {
        if j > 0 {
          assert ms[1..][j - 1] == ms[j];
        }
      }
    }
  }

  /** `split(":")[0]` of a text with a colon is the part before its first colon. */
  lemma BeforeColonConcat(a: string, b: string)
    requires ':' in a
    ensures BeforeColon(a + b) == BeforeColon(a)
  {
    var j := ColonIndex(a, 0);
    var k := ColonIndex(a + b, 0);
    assert j < |a| && (a + b)[j] == a[j];
    assert k <= j;
    assert forall m :: 0 <= m < k ==> (a + b)[m] == a[m];
    assert (a + b)[..j] == a[..j];
  }

  /** The prefix of a match of `p:` is `p`. */
  lemma PrefixOfMatch(p: string, rest: string)
    requires ':' !in p
    ensures BeforeColon(p + ":" + rest) == p
  {
    var s := p + ":" + rest;
    assert forall m :: 0 <= m < |p| ==> s[m] == p[m];
    assert s[|p|] == ':';
    assert s[..|p|] == p;
  }

  /**
   * Every linked entity carries the prefix `wd` (without its colon) and the
   * id that followed it in the query.
   */
  lemma EntityPrefixes(entities: map<string, string>, sparql: string)
    requires LinkEntities(entities, sparql, FindAll(sparql, "wd: ", 0)).Success?
    ensures var ents := LinkEntities(entities, sparql, FindAll(sparql, "wd: ", 0)).value;
      var ms := FindAll(sparql, "wd: ", 0);
      && |ents| == |ms|
      && forall i :: 0 <= i < |ents| ==>
        ents[i].prefix == "wd" && ents[i].id == ms[i].group && ms[i].group in entities && ents[i].labelText == entities[ms[i].group]
  {
    var ms := FindAll(sparql, "wd: ", 0);
    EntitiesSpec(entities, sparql, ms);
    forall i | 0 <= i < |ms|
      ensures BeforeColon(ms[i].whole) == "wd"
    {
      assert ms[i].whole == "wd" + ":" + (" " + ms[i].group + " ");
      PrefixOfMatch("wd", " " + ms[i].group + " ");
    }
  }

  /**
   * Relation ids of the normalised form `p<digits>`: the id is non-empty and
   * upper-casing it gives `"P" + id[1:]`, the key the loop checks and inserts.
   */
  predicate ProperId(id: string) {
    |id| > 0 && Upper(id) == RelationKey(id)
  }

  /** The table after the null insertions for the ids of `ms`, when every id is proper. */
  function WithNulls(relations: map<string, string>, ms: seq<Match>): map<string, string>
    decreases |ms|
  {
    if ms == [] then relations
    else
      var key := RelationKey(ms[0].group);
      WithNulls(if key in relations then relations else relations[key := "null"], ms[1..])
  }

  /**
   * With proper ids, the corrected relation loop always succeeds: one
   * descriptor per match, in order, labelled from the table or `"null"` for
   * an unknown id, and the table afterwards is the old one plus a `"null"`
   * entry for each unknown id (no known label is overwritten).
   */
  lemma {:induction false} RelationsSpec(relations: map<string, string>, ms: seq<Match>)
    requires forall i :: 0 <= i < |ms| ==> ProperId(ms[i].group) && ':' in ms[i].whole
    ensures var (r, rel') := LinkRelations(relations, ms, Corrected);
      && r.Success?
      && |r.value| == |ms|
      && rel' == WithNulls(relations, ms)
      && forall i :: 0 <= i < |ms| ==>
        var key := RelationKey(ms[i].group);
        r.value[i] == Descriptor(BeforeColon(ms[i].whole), ms[i].group, if key in relations then relations[key] else "null")
    decreases |ms|
  {
    if ms != [] {
      var m := ms[0];
      var key := RelationKey(m.group);
      var rel := InsertNull(relations, m.group);
      assert rel == if key in relations then relations else relations[key := "null"];
      BeforeColonConcat(m.whole, rel[key] + " ");
      assert m.whole + rel[key] + " " == m.whole + (rel[key] + " ");
      var d := Descriptor(BeforeColon(m.whole), m.group, rel[key]);
      assert RelationStep(relations, m, Corrected) == (Success(d), rel);
      RelationsSpec(rel, ms[1..]);
      var (r', rel'') := LinkRelations(rel, ms[1..], Corrected);
      assert LinkRelations(relations, ms, Corrected) == (Success([d] + r'.value), rel'');
      assert WithNulls(relations, ms) == WithNulls(rel, ms[1..]);
      var rest := r'.value;
      forall i | 1 <= i < |ms|
        ensures var k := RelationKey(ms[i].group);
          rest[i - 1] == Descriptor(BeforeColon(ms[i].whole), ms[i].group, if k in relations then relations[k] else "null")
      {
        assert ms[1..][i - 1] == ms[i];
      }
    }
  }

  /** Null insertion only ever adds keys or sets them to `"null"`: every other entry survives. */
  lemma {:induction false} RelationTableGrows(relations: map<string, string>, ms: seq<Match>, rule: LabelRule)
    ensures var rel' := LinkRelations(relations, ms, rule).1;
      && relations.Keys <= rel'.Keys
      && forall k :: k in rel' ==> (k in relations && rel'[k] == relations[k]) || rel'[k] == "null"
    decreases |ms|
  {
    if ms != [] {
      var rel := RelationStep(relations, ms[0], rule).1;
      if RelationStep(relations, ms[0], rule).0.Success? {
        RelationTableGrows(rel, ms[1..], rule);
      }
    }
  }

  /**
   * As written, the label is read from `"P" + id`: for a proper id such as
   * `p26` that key (`Pp26`) is neither the one checked nor the one inserted,
   * so unless the table happens to hold it the loop raises `KeyError` at the
   * first relation.
   */
  lemma AsWrittenLabelFails(relations: map<string, string>, ms: seq<Match>)
    requires ms != [] && ProperId(ms[0].group)
    requires "P" + ms[0].group !in relations
    ensures LinkRelations(relations, ms, AsWritten).0 == Failure(KeyError("P" + ms[0].group))
  {
    var id := ms[0].group;
    var rel := InsertNull(relations, id);
    assert |RelationKey(id)| == |id| < |"P" + id|;
    assert "P" + id !in rel;
  }

  /** Each relation match's prefix is its pattern's text before the colon. */
  lemma RelationMatchPrefixes(s: string)
    ensures forall i :: 0 <= i < |RelationMatches(s)| ==>
      var m := RelationMatches(s)[i];
      ':' in m.whole && BeforeColon(m.whole) in ["wdt", " p", " ps", "pq"]
  {
    var a, b, c, d := FindAll(s, "wdt: ", 0), FindAll(s, " p: ", 0), FindAll(s, " ps: ", 0), FindAll(s, "pq: ", 0);
    forall i | 0 <= i < |a + b + c + d|
      ensures var m := (a + b + c + d)[i];
        ':' in m.whole && BeforeColon(m.whole) in ["wdt", " p", " ps", "pq"]
    {
      var m := (a + b + c + d)[i];
      var p: string;
      if i < |a| {
        p := "wdt";
        assert m == a[i];
      } else if i < |a| + |b| {
        p := " p";
        assert m == b[i - |a|];
      } else if i < |a| + |b| + |c| {
        p := " ps";
        assert m == c[i - |a| - |b|];
      } else {
        p := "pq";
        assert m == d[i - |a| - |b| - |c|];
      }
      assert m.whole == p + ":" + (" " + m.group + " ");
      assert m.whole[|p|] == ':';
      PrefixOfMatch(p, " " + m.group + " ");
    }
  }

  /**
   * `link` with the corrected label key on a non-empty query whose entity
   * ids are all known and `}`-free and whose relation ids are proper: the
   * entities in document order, then the relations grouped by pattern, each
   * with its pattern's prefix and its label or `"null"`.
   */
  lemma LinkCorrected(entities: map<string, string>, relations: map<string, string>, sparql: string)
    requires sparql != []
    requires forall m :: m in FindAll(sparql, "wd: ", 0) ==> '}' !in m.group && m.group in entities
    requires forall m :: m in RelationMatches(sparql) ==> ProperId(m.group)
    ensures var (r, rel') := LinkSpec(entities, relations, sparql, Corrected);
      var ems, rms := FindAll(sparql, "wd: ", 0), RelationMatches(sparql);
      && r.Success?
      && rel' == WithNulls(relations, rms)
      && |r.value.ents| == |ems|
      && (forall i :: 0 <= i < |ems| ==> r.value.ents[i].prefix == "wd" && r.value.ents[i].id == ems[i].group)
      && |r.value.rels| == |rms|
      && forall i :: 0 <= i < |rms| ==>
        var key := RelationKey(rms[i].group);
        && r.value.rels[i].prefix in ["wdt", " p", " ps", "pq"]
        && r.value.rels[i].id == rms[i].group
        && r.value.rels[i].labelText == if key in relations then relations[key] else "null"
  {
    var ems, rms := FindAll(sparql, "wd: ", 0), RelationMatches(sparql);
    forall i | 0 <= i < |ems|
      ensures '}' !in ems[i].whole && ems[i].group in entities
    {
      assert ems[i] in ems;
      assert ems[i].whole == "wd: " + ems[i].group + " ";
    }
    EntitiesSpec(entities, sparql, ems);
    EntityPrefixes(entities, sparql);
    RelationMatchPrefixes(sparql);
    forall i | 0 <= i < |rms|
      ensures ProperId(rms[i].group) && ':' in rms[i].whole
    {
      assert rms[i] in rms;
    }
    RelationsSpec(relations, rms);
  }

  lemma {:induction false} NoMatchFrom(s: string, lit: string, i: nat)
    requires i <= |s|
    requires forall k :: i <= k < |s| ==> !StartsAt(s, lit, k)
    ensures FindAll(s, lit, i) == []
    decreases |s| - i
  {
    if i < |s| {
      NoMatchFrom(s, lit, i + 1);
    }
  }

  /**
   * A pattern with a colon at offset `d` has no match in a text whose only
   * colon is at `c`, unless it starts at `c - d`.
   */
  lemma NoMatchByColon(s: string, lit: string, c: nat, d: nat)
    requires c < |s| && d < |lit| && lit[d] == ':'
    requires forall k :: 0 <= k < |s| && k != c ==> s[k] != ':'
    requires d <= c ==> !StartsAt(s, lit, c - d)
    ensures FindAll(s, lit, 0) == []
  {
    forall k | 0 <= k < |s|
      ensures !StartsAt(s, lit, k)
    {
      StartsAtSlice(s, lit, k);
      if k + |lit| <= |s| {
        assert s[k..k + |lit|][d] == s[k + d];
      }
    }
    NoMatchFrom(s, lit, 0);
  }

  /** The sample query's only colon is the one after `wdt`. */
  lemma SampleColon()
    ensures forall k :: 0 <= k < |"wdt: p26 "| && k != 3 ==> "wdt: p26 "[k] != ':'
  {
  }

  lemma SampleNoEntity()
    ensures FindAll("wdt: p26 ", "wd: ", 0) == []
  {
    SampleColon();
    assert !StartsAt("wdt: p26 ", "wd: ", 1);
    NoMatchByColon("wdt: p26 ", "wd: ", 3, 2);
  }

  lemma SampleOnlyDirect()
    ensures FindAll("wdt: p26 ", " p: ", 0) == []
    ensures FindAll("wdt: p26 ", " ps: ", 0) == []
    ensures FindAll("wdt: p26 ", "pq: ", 0) == []
  {
    SampleColon();
    assert !StartsAt("wdt: p26 ", " p: ", 1);
    NoMatchByColon("wdt: p26 ", " p: ", 3, 2);
    assert !StartsAt("wdt: p26 ", " ps: ", 0);
    NoMatchByColon("wdt: p26 ", " ps: ", 3, 3);
    assert !StartsAt("wdt: p26 ", "pq: ", 1);
    NoMatchByColon("wdt: p26 ", "pq: ", 3, 2);
  }

  lemma SampleDirect()
    ensures FindAll("wdt: p26 ", "wdt: ", 0) == [Match("wdt: p26 ", "p26")]
  {
    var s := "wdt: p26 ";
    assert StartsAt(s, "wdt: ", 0);
    assert FieldEnd(s, 5) == Some(8);
    assert s[0..9] == "wdt: p26 " && s[5..8] == "p26";
  }

  /** The matches of the one-relation query `wdt: p26 `. */
  lemma SampleMatches()
    ensures FindAll("wdt: p26 ", "wd: ", 0) == []
    ensures RelationMatches("wdt: p26 ") == [Match("wdt: p26 ", "p26")]
  {
    SampleNoEntity();
    SampleOnlyDirect();
    SampleDirect();
  }

  /** The one relation of the sample, labelled with the corrected key. */
  lemma SampleCorrectedStep()
    ensures var rel := map["P26" := "spouse"];
      LinkRelations(rel, [Match("wdt: p26 ", "p26")], Corrected) == (Success([Descriptor("wdt", "p26", "spouse")]), rel)
  {
    var m := Match("wdt: p26 ", "p26");
    var rel := map["P26" := "spouse"];
    assert Upper("p26") == "P26" && RelationKey("p26") == "P26";
    assert InsertNull(rel, "p26") == rel;
    PrefixOfMatch("wdt", " p26 spouse ");
    assert m.whole + "spouse" + " " == "wdt" + ":" + " p26 spouse ";
    var d := Descriptor("wdt", "p26", "spouse");
    assert RelationStep(rel, m, Corrected) == (Success(d), rel);
    assert [m][1..] == [];
    assert LinkRelations(rel, [], Corrected) == (Success([]), rel);
    assert [d] + [] == [d];
  }

  /** The one relation of the sample, labelled with the key as written. */
  lemma SampleAsWrittenStep()
    ensures LinkRelations(map["P26" := "spouse"], [Match("wdt: p26 ", "p26")], AsWritten).0 == Failure(KeyError("Pp26"))
  {
    var m := Match("wdt: p26 ", "p26");
    assert "P" + "p26" == "Pp26";
    assert ProperId("p26") by {
      assert Upper("p26") == "P26" && RelationKey("p26") == "P26";
    }
    AsWrittenLabelFails(map["P26" := "spouse"], [m]);
  }

  /** For `wdt: p26 ` with `P26` labelled `spouse`, the code as written raises `KeyError('Pp26')`. */
  lemma SampleAsWritten()
    ensures LinkSpec(map[], map["P26" := "spouse"], "wdt: p26 ", AsWritten).0 == Failure(KeyError("Pp26"))
  {
    var q := "wdt: p26 ";
    SampleMatches();
    assert LinkEntities(map[], q, FindAll(q, "wd: ", 0)) == Success([]);
    SampleAsWrittenStep();
  }

  /** With the corrected key, the same query links `p26` as `spouse`. */
  lemma SampleCorrected()
    ensures LinkSpec(map[], map["P26" := "spouse"], "wdt: p26 ", Corrected) ==
      (Success(LinkResult([], [Descriptor("wdt", "p26", "spouse")])), map["P26" := "spouse"])
  {
    var q := "wdt: p26 ";
    SampleMatches();
    assert LinkEntities(map[], q, FindAll(q, "wd: ", 0)) == Success([]);
    SampleCorrectedStep();
  }
}
