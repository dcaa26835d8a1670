/**
 * A Wikidata term as (IRI, prefix, id), built from an IRI by the first base
 * IRI of an ordered prefix table that occurs in it, and its JSON form.
 */
module Wikidata {
  import opened PyStr
  import opened Outcomes

  /** The base IRIs and their prefixes, in the order `from_uri` tries them. */
  const Prefixes: seq<(string, string)> := [
    ("http://www.wikidata.org/entity/", "wd:"),
    ("http://www.wikidata.org/entity/statement/", "wds:"),
    ("http://www.wikidata.org/value/", "wdv:"),
    ("http://www.wikidata.org/prop/direct/", "wdt:"),
    ("http://wikiba.se/ontology#", "wikibase:"),
    ("http://www.wikidata.org/prop/", "p:"),
    ("http://www.wikidata.org/prop/statement/", "ps:"),
    ("http://www.wikidata.org/prop/qualifier/", "pq:"),
    ("http://www.w3.org/2000/01/rdf-schema#", "rdfs:"),
    ("http://www.bigdata.com/rdf#", "bd:")
  ]

  datatype WikidataObject = WikidataObject(uri: string, prefix: string, id: string) {
    /** `__str__`: the prefix, a colon and the id (the stored prefix already ends in a colon). */
    function ToString(): (s: string)
      ensures |s| == |prefix| + 1 + |id|
      ensures s[..|prefix|] == prefix
      ensures s[|prefix|] == ':' && s[|prefix| + 1..] == id
    {
      prefix + ":" + id
    }

    /** `json()`. */
    function Json(): (j: map<string, string>)
      ensures j.Keys == {"uri", "prefix", "id"}
      ensures j["uri"] == uri && j["prefix"] == prefix && j["id"] == id
    {
      map["uri" := uri, "prefix" := prefix, "id" := id]
    }
  }

  /** The keys `from_json` checks, in order. */
  const JsonKeys: seq<string> := ["uri", "prefix", "id"]

  /** The first of `keys` missing from `j`, if any. */
  function FirstMissing(j: map<string, string>, keys: seq<string>): (r: Option<string>)
    ensures r.None? <==> forall k :: k in keys ==> k in j
    ensures r.Some? ==> r.value in keys && r.value !in j
    decreases |keys|
  {
    if keys == [] then None
    else if keys[0] !in j then Some(keys[0])
    else
      assert forall k :: k in keys <==> k == keys[0] || k in keys[1..];
      FirstMissing(j, keys[1..])
  }

  /** `from_json`: every key present, or an exception naming the first missing one. */
  function FromJson(j: map<string, string>): (r: Result<WikidataObject>)
    ensures r.Success? <==> "uri" in j && "prefix" in j && "id" in j
  {
    var missing := FirstMissing(j, JsonKeys);
    if missing.Some? then Failure(Exception("WikidataObject Json missing key: " + missing.value))
    else Success(WikidataObject(j["uri"], j["prefix"], j["id"]))
  }

  // ---------------------------------------------------------------------------
  // `uri.split(base)`

  /** The first index at or after `i` where `p` occurs in `s`, or `|s| + 1` if none. */
  function Find(s: string, p: string, i: nat): (r: nat)
    requires i <= |s| + 1
    ensures i <= r <= |s| + 1
    ensures r <= |s| ==> StartsAt(s, p, r)
    ensures forall k :: i <= k < r && k <= |s| ==> !StartsAt(s, p, k)
    decreases |s| + 1 - i
  {
    if i > |s| then |s| + 1
    else if StartsAt(s, p, i) then i
    else Find(s, p, i + 1)
  }

  /** `s.split(p)` for a non-empty separator: the pieces between non-overlapping occurrences. */
  function SplitOn(s: string, p: string): (pieces: seq<string>)
    requires |p| > 0
    ensures |pieces| >= 1
    decreases |s|
  {
    var j := Find(s, p, 0);
    if j > |s| then [s]
    else
      StartsAtSlice(s, p, j);
      [s[..j]] + SplitOn(s[j + |p|..], p)
  }

  // ---------------------------------------------------------------------------
  // `from_uri`

  /** The `as_type` argument: `None`, `"json"`, or anything else. */
  datatype AsType = Plain | AsJson | Other(name: string)

  /** What `from_uri` returns: the object, or its JSON form. */
  datatype Converted = Object(obj: WikidataObject) | JsonForm(json: map<string, string>)

  /** The body of the loop once base `k` occurs in `uri`. */
  function FromBase(uri: string, asType: AsType, k: nat): Result<Converted>
    requires k < |Prefixes|
  {
    var (base, prefix) := Prefixes[k];
    var fragments := SplitOn(uri, base);
    if |fragments| != 2 then Failure(AssertionError)
    else if Strip(fragments[0]) != "" then Failure(AssertionError)
    else
      var obj := WikidataObject(uri, prefix, fragments[1]);
      match asType
      case Plain => Success(Object(obj))
      case AsJson => Success(JsonForm(obj.Json()))
      case Other(_) => Failure(Exception("Unknown as_type"))
  }

  /** The loop of `from_uri` from table position `k` on. */
  function FromUriFrom(uri: string, asType: AsType, k: nat): Result<Converted>
    requires k <= |Prefixes|
    decreases |Prefixes| - k
  {
    if k == |Prefixes| then Failure(Exception("Prefix of URI not found"))
    else if Occurs(uri, Prefixes[k].0) then FromBase(uri, asType, k)
    else FromUriFrom(uri, asType, k + 1)
  }

  /** `from_uri`. */
  function FromUri(uri: string, asType: AsType): Result<Converted> {
    FromUriFrom(uri, asType, 0)
  }

  // ---------------------------------------------------------------------------
  // Properties

  /** Every prefix of the table already ends in a colon, so `__str__` puts two colons before the id. */
  lemma ToStringDoubleColon(o: WikidataObject, k: nat)
    requires k < |Prefixes| && o.prefix == Prefixes[k].1
    ensures o.ToString()[|o.prefix| - 1..|o.prefix| + 1] == "::"
  {
    var s := o.ToString();
    assert o.prefix[|o.prefix| - 1] == ':';
    assert s[|o.prefix| - 1] == o.prefix[|o.prefix| - 1];
  }

  /** `from_json` undoes `json()`. */
  lemma FromJsonRoundTrip(o: WikidataObject)
    ensures FromJson(o.Json()) == Success(o)
  {
  }

  /** A missing key raises an exception naming the first missing one of `uri`, `prefix`, `id`. */
  lemma FromJsonMissingKey(j: map<string, string>)
    requires !("uri" in j && "prefix" in j && "id" in j)
    ensures FromJson(j) == Failure(Exception("WikidataObject Json missing key: " +
      if "uri" !in j then "uri" else if "prefix" !in j then "prefix" else "id"))
  {
    assert JsonKeys[1..] == ["prefix", "id"] && JsonKeys[2..] == ["id"];
  }

  /** `Occurs` and `Find` agree. */
  lemma FindOccurs(s: string, p: string)
    ensures Occurs(s, p) <==> Find(s, p, 0) <= |s|
  {
  }

  /** Two pieces mean the separator occurs once, between them. */
  lemma SplitOnTwo(s: string, p: string)
    requires |p| > 0 && |SplitOn(s, p)| == 2
    ensures s == SplitOn(s, p)[0] + p + SplitOn(s, p)[1]
  {
    var j := Find(s, p, 0);
    StartsAtSlice(s, p, j);
    var rest := s[j + |p|..];
    assert Find(rest, p, 0) > |rest|;
    assert s == s[..j] + s[j..j + |p|] + rest;
  }

  /** A separator that occurs once, at `j`, splits the text into what is before and after it. */
  lemma SplitOnOnce(s: string, p: string, j: nat)
    requires |p| > 0 && StartsAt(s, p, j)
    requires forall k :: 0 <= k <= |s| && k != j ==> !StartsAt(s, p, k)
    ensures SplitOn(s, p) == [s[..j], s[j + |p|..]]
  {
    var rest := s[j + |p|..];
    assert Find(s, p, 0) == j;
    NothingAfterOnly(s, p, j, rest);
    FindAbsent(rest, p);
    assert SplitOn(rest, p) == [rest];
  }

  /** Nothing follows the only occurrence. */
  lemma NothingAfterOnly(s: string, p: string, j: nat, rest: string)
    requires |p| > 0 && StartsAt(s, p, j) && rest == s[j + |p|..]
    requires forall k :: 0 <= k <= |s| && k != j ==> !StartsAt(s, p, k)
    ensures forall k :: 0 <= k <= |rest| ==> !StartsAt(rest, p, k)
  {
    forall k | 0 <= k <= |rest|
      ensures !StartsAt(rest, p, k)
    {
      StartsAtShift(s, p, j + |p|, j + |p| + k);
    }
  }

  /** `find` reports a separator that does not occur as past the end. */
  lemma FindAbsent(s: string, p: string)
    requires forall k :: 0 <= k <= |s| ==> !StartsAt(s, p, k)
    ensures Find(s, p, 0) == |s| + 1
  {
  }

  /**
   * `from_uri` acts on the FIRST base of the table that occurs in the IRI:
   * no earlier base occurs, and the outcome is that base's.
   */
  lemma {:induction false} FirstMatch(uri: string, asType: AsType, k: nat, m: nat)
    requires k <= m < |Prefixes| && Occurs(uri, Prefixes[m].0)
    requires forall i :: k <= i < m ==> !Occurs(uri, Prefixes[i].0)
    ensures FromUriFrom(uri, asType, k) == FromBase(uri, asType, m)
    decreases m - k
  {
    if k < m {
      FirstMatch(uri, asType, k + 1, m);
    }
  }

  /** No base occurring is exactly the "not found" exception. */
  lemma {:induction false} NotFound(uri: string, asType: AsType, k: nat)
    requires k <= |Prefixes|
    ensures FromUriFrom(uri, asType, k) == Failure(Exception("Prefix of URI not found")) <==>
      forall i :: k <= i < |Prefixes| ==> !Occurs(uri, Prefixes[i].0)
    decreases |Prefixes| - k
  {
    if k < |Prefixes| {
      NotFound(uri, asType, k + 1);
    }
  }

  /** On success the IRI is blank text, the base and the id; the prefix is the base's. */
  lemma FromBaseShape(uri: string, k: nat)
    requires k < |Prefixes| && FromBase(uri, Plain, k).Success?
    ensures var o := FromBase(uri, Plain, k).value.obj;
      && o.uri == uri
      && o.prefix == Prefixes[k].1
      && exists w :: Strip(w) == "" && uri == w + Prefixes[k].0 + o.id
  {
    SplitOnTwo(uri, Prefixes[k].0);
  }

  /** `from_uri(u, "json")` is `from_uri(u).json()`, and they fail alike. */
  lemma {:induction false} JsonAgrees(uri: string, k: nat)
    requires k <= |Prefixes|
    ensures var plain := FromUriFrom(uri, Plain, k);
      FromUriFrom(uri, AsJson, k) == if plain.Success? then Success(JsonForm(plain.value.obj.Json())) else plain
    decreases |Prefixes| - k
  {
    if k < |Prefixes| && !Occurs(uri, Prefixes[k].0) {
      JsonAgrees(uri, k + 1);
    }
  }

  /** An unknown `as_type` raises once a base matched, and the not-found exception takes precedence. */
  lemma {:induction false} OtherTypeFails(uri: string, name: string, k: nat)
    requires k <= |Prefixes|
    ensures FromUriFrom(uri, Other(name), k).Failure?
    decreases |Prefixes| - k
  {
    if k < |Prefixes| && !Occurs(uri, Prefixes[k].0) {
      OtherTypeFails(uri, name, k + 1);
    }
  }

  // ---------------------------------------------------------------------------
  // Statement IRIs

  /** In a text whose only colon is at `c`, a pattern with a colon at offset `d` can only start at `c - d`. */
  lemma OnlyAtColon(s: string, p: string, c: nat, d: nat, k: nat)
    requires d < |p| && p[d] == ':'
    requires forall i :: 0 <= i < |s| && i != c ==> s[i] != ':'
    requires StartsAt(s, p, k)
    ensures k + d == c
  {
    StartsAtSlice(s, p, k);
    assert s[k..k + |p|][d] == s[k + d];
  }

  /**
   * An IRI made of base `k` and a tail, where base `k` occurs only at the
   * start and no earlier base occurs, is read with base `k`'s prefix and the
   * tail as its id.
   */
  lemma BaseThenTail(uri: string, k: nat, tail: string)
    requires k < |Prefixes| && uri == Prefixes[k].0 + tail
    requires forall i :: 0 <= i < k ==> !Occurs(uri, Prefixes[i].0)
    requires forall j :: 0 < j <= |uri| ==> !StartsAt(uri, Prefixes[k].0, j)
    ensures FromUri(uri, Plain) == Success(Object(WikidataObject(uri, Prefixes[k].1, tail)))
  {
    var base := Prefixes[k].0;
    assert |base| > 0;
    StartsAtSlice(uri, base, 0);
    assert uri[..|base|] == base;
    SplitOnOnce(uri, base, 0);
    assert uri[..0] == "" && uri[|base|..] == tail;
    assert SplitOn(uri, base) == ["", tail];
    assert Strip("") == "";
    FirstMatch(uri, Plain, 0, k);
  }

  /** The only colon of an IRI head with no colon in its tail is the one after `http`. */
  lemma ColonAfterScheme(head: string, tail: string)
    requires |head| > 4 && forall i :: 0 <= i < |head| && i != 4 ==> head[i] != ':'
    requires ':' !in tail
    ensures forall i :: 0 <= i < |head + tail| && i != 4 ==> (head + tail)[i] != ':'
  {
    forall i | 0 <= i < |head + tail| && i != 4
      ensures (head + tail)[i] != ':'
    {
      if i >= |head| {
        assert (head + tail)[i] == tail[i - |head|];
      }
    }
  }

  /** A base with its only colon after `http` occurs in such an IRI only at the start, if at all. */
  lemma OnlyAtStart(uri: string, base: string)
    requires |base| > 4 && base[4] == ':'
    requires forall i :: 0 <= i < |uri| && i != 4 ==> uri[i] != ':'
    ensures forall j :: 0 < j <= |uri| ==> !StartsAt(uri, base, j)
  {
    forall j | 0 < j <= |uri|
      ensures !StartsAt(uri, base, j)
    {
      if StartsAt(uri, base, j) {
        OnlyAtColon(uri, base, 4, 4, j);
      }
    }
  }

  /** A base that differs from the IRI at position `d` does not occur in it. */
  lemma DiffersAt(uri: string, base: string, d: nat)
    requires d < |base| && d < |uri| && uri[d] != base[d]
    requires forall j :: 0 < j <= |uri| ==> !StartsAt(uri, base, j)
    ensures !Occurs(uri, base)
  {
    StartsAtSlice(uri, base, 0);
    if |base| <= |uri| {
      assert uri[0..|base|][d] == uri[d];
    }
  }

  /**
   * A statement IRI starts with the entity base, which comes first in the
   * table, so it is read as `wd:` with the id `statement/…`.
   */
  lemma StatementIriIsEntity(rest: string)
    requires ':' !in rest
    ensures var uri := Prefixes[0].0 + ("statement/" + rest);
      FromUri(uri, Plain) == Success(Object(WikidataObject(uri, "wd:", "statement/" + rest)))
  {
    var base := Prefixes[0].0;
    var head := base + "statement/";
    assert head == "http://www.wikidata.org/entity/statement/";
    var uri := head + rest;
    assert uri == base + ("statement/" + rest);
    ColonAfterScheme(head, rest);
    OnlyAtStart(uri, base);
    BaseThenTail(uri, 0, "statement/" + rest);
  }

  /**
   * A direct-property IRI is read as `wdt:` with the property id, although
   * the plain property base, which comes later in the table, occurs in it too.
   */
  lemma DirectPropertyIri(id: string)
    requires ':' !in id
    ensures var uri := Prefixes[3].0 + id;
      FromUri(uri, Plain) == Success(Object(WikidataObject(uri, "wdt:", id)))
      && Occurs(uri, Prefixes[5].0)
  {
    var head := Prefixes[3].0;
    assert head == "http://www.wikidata.org/prop/direct/";
    var uri := head + id;
    ColonAfterScheme(head, id);
    assert uri[24] == 'p';
    forall i | 0 <= i < 3
      ensures !Occurs(uri, Prefixes[i].0)
    {
      var base := Prefixes[i].0;
      assert base[4] == ':' && base[24] != 'p';
      OnlyAtStart(uri, base);
      DiffersAt(uri, base, 24);
    }
    OnlyAtStart(uri, head);
    BaseThenTail(uri, 3, id);
    var prop := Prefixes[5].0;
    assert uri[..|prop|] == prop;
    StartsAtSlice(uri, prop, 0);
  }
}
