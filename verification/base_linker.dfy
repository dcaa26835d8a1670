/**
 * The linker base class, whose `link` finds nothing, and `flat_map`, which
 * concatenates the lists a function gives for each element.
 */
module BaseLinker {

  /** What `link` returns: the utterance with its entity and relation links. */
  datatype Links<E> = Links(utterance: string, ents: seq<E>, rels: seq<E>)

  class Linker {
    const name: string

    constructor(name: string)
      ensures this.name == name
    {
      this.name := name;
    }

    /** `__str__`: the name behind a fixed tag. */
    function ToString(): (s: string)
      ensures |s| == 9 + |name|
      ensures s[..9] == "(Linker) " && s[9..] == name
    {
      "(Linker) " + name
    }

    /** `link`: the utterance unchanged, and no links of either kind. */
    function Link<E>(utterance: string): (r: Links<E>)
      ensures r.utterance == utterance
      ensures |r.ents| == 0 && |r.rels| == 0
    {
      Links(utterance, [], [])
    }
  }

  // ---------------------------------------------------------------------------
  // flat_map

  /** The concatenation of `f(x)` over `xs`, in order. */
  function Concat<X, Y>(f: X -> seq<Y>, xs: seq<X>): seq<Y>
    decreases |xs|
  {
    if xs == [] then [] else Concat(f, xs[..|xs| - 1]) + f(xs[|xs| - 1])
  }

  /** The sum of the lengths of `f(x)` over `xs`, counted from the front. */
  function SumLengths<X, Y>(f: X -> seq<Y>, xs: seq<X>): nat
    decreases |xs|
  {
    if xs == [] then 0 else |f(xs[0])| + SumLengths(f, xs[1..])
  }

  /** `flat_map`: extend `ys` with `f(x)` for every `x` of `xs`. */
  method FlatMap<X, Y>(f: X -> seq<Y>, xs: seq<X>) returns (ys: seq<Y>)
    ensures ys == Concat(f, xs)
    ensures xs == [] ==> ys == []
  {
    ys := [];
    var i := 0;
    while i < |xs|
      invariant 0 <= i <= |xs|
      invariant ys == Concat(f, xs[..i])
    {
      assert xs[..i + 1][..i] == xs[..i];
      ys := ys + f(xs[i]);
      i := i + 1;
    }
    assert xs[..i] == xs;
  }

  /** Concatenation over two lists one after the other is the concatenation of the two results. */
  lemma {:induction false} ConcatAppend<X, Y>(f: X -> seq<Y>, xs: seq<X>, zs: seq<X>)
    ensures Concat(f, xs + zs) == Concat(f, xs) + Concat(f, zs)
    decreases |zs|
  {
    if zs != [] {
      var n := |zs|;
      assert (xs + zs)[..|xs + zs| - 1] == xs + zs[..n - 1];
      assert (xs + zs)[|xs + zs| - 1] == zs[n - 1];
      ConcatAppend(f, xs, zs[..n - 1]);
      assert Concat(f, xs + zs) == Concat(f, xs + zs[..n - 1]) + f(zs[n - 1]);
      assert Concat(f, zs) == Concat(f, zs[..n - 1]) + f(zs[n - 1]);
    } else {
      assert xs + zs == xs;
    }
  }

  /** The first element's list comes first. */
  lemma ConcatCons<X, Y>(f: X -> seq<Y>, xs: seq<X>)
    requires xs != []
    ensures Concat(f, xs) == f(xs[0]) + Concat(f, xs[1..])
  {
    assert xs == [xs[0]] + xs[1..];
    ConcatAppend(f, [xs[0]], xs[1..]);
    assert [xs[0]][..0] == [];
  }

  /** The length of the result is the sum of the lengths of the `f(x)`. */
  lemma {:induction false} ConcatLength<X, Y>(f: X -> seq<Y>, xs: seq<X>)
    ensures |Concat(f, xs)| == SumLengths(f, xs)
    decreases |xs|
  {
    if xs != [] {
      ConcatCons(f, xs);
      ConcatLength(f, xs[1..]);
    }
  }

  /** Mapping every element to itself as a one-element list gives the list back. */
  lemma {:induction false} ConcatSingletons<X>(xs: seq<X>)
    ensures Concat(x => [x], xs) == xs
    decreases |xs|
  {
    if xs != [] {
      ConcatSingletons(xs[..|xs| - 1]);
      assert xs[..|xs| - 1] + [xs[|xs| - 1]] == xs;
    }
  }
}
