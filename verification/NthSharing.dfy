/** Which matching contexts may share the indices of a selector list.  What a list matches
    can depend on the context, while the nth cache knows the list's address alone. */
module NthSharing {
  import opened Dom
  import opened KleeneLogic
  import opened Selectors
  import opened Semantics
  import opened MatchResults
  import opened Meaning
  import MatchingTheorems
  import opened NthIndexCache

  function QueryOf(x: Component, fromEnd: bool, address: nat): Query
    requires IsNth(x)
  {
    Query(DataOf(x).ty.IsOfType(), fromEnd, if ListOf(x) == [] then None else Some(address))
  }

  /** `m` is what the selector list of `x` matches in context `c`. */
  ghost predicate Means(c: Context, x: Component, m: nat -> bool)
    requires IsNth(x)
  {
    forall y: nat | IsElement(c.tree, y) && ListOf(x) != [] :: m(y) <==> !ListVal(c, x.selectors, y).False?
  }

  lemma {:induction false} PlainCount(c: Context, x: Component, fromEnd: bool, address: nat, m: nat -> bool, e: nat,
                                      lo: nat, hi: nat)
    requires IsNth(x) && IsElement(c.tree, e) && Means(c, x, m)
    ensures Count(c.tree, QueryOf(x, fromEnd, address), m, e, lo, hi) == CountSiblings(c, x, e, lo, hi)
    decreases hi
  {
    if lo < hi {
      PlainCount(c, x, fromEnd, address, m, e, lo, hi - 1);
    }
  }

  /** The uncached index of the cache module is the index of the matching engine. */
  lemma PlainIndexIsSiblingIndex(c: Context, x: Component, fromEnd: bool, address: nat, m: nat -> bool, e: nat)
    requires IsNth(x) && IsElement(c.tree, e) && Means(c, x, m)
    ensures PlainIndex(c.tree, QueryOf(x, fromEnd, address), m, e) == SiblingIndex(c, x, fromEnd, e)
  {
    PlainCount(c, x, fromEnd, address, m, e, e + 1, |c.tree.nodes|);
    PlainCount(c, x, fromEnd, address, m, e, 0, e);
  }

  // ------------------------------------- lists that two contexts read alike

  // Inside `:has()` a nested `:has()` never matches; `:scope` and `&` stand for another
  // element in another scope; revalidation does not compute `:scope` but reads it as true
  // outside negations; `:link` and `:visited` depend on how visited links are handled.  A
  // syntactic check of the list against the fields in which two contexts differ decides
  // whether they may share an index.

  /** What a list may refer to: a `:has()` in effect, the anchor of the `:has()`
      around the list, the scope, `:link` and `:visited`. */
  datatype Allowed = Allowed(has: bool, anchor: bool, scope: bool, links: bool)

  /** A syntactic check, at every depth.  Inside `:has()` the anchor is its own. */
  predicate Within(s: seq<Component>, p: Allowed) {
    forall i | 0 <= i < |s| :: WithinComponent(s[i], p)
  }

  predicate WithinList(list: SelectorList, p: Allowed) {
    forall i | 0 <= i < |list| :: Within(list[i].components, p)
  }

  predicate WithinRelative(r: RelativeSelector, p: Allowed) {
    Within(r.selector.components, Allowed(true, true, p.scope, p.links))
  }

  predicate WithinComponent(x: Component, p: Allowed) {
    match x
    case Has(rs) => p.has && forall i | 0 <= i < |rs| :: WithinRelative(rs[i], p)
    case RelativeSelectorAnchor => p.anchor
    case Scope => p.scope
    case ImplicitScope => p.scope
    case ParentSelector => p.scope
    case LinkPseudoClass(_) => p.links
    case NthOf(_, list) => WithinList(list, p)
    case Is(list) => WithinList(list, p)
    case Where(list) => WithinList(list, p)
    case Negation(list) => WithinList(list, p)
    case _ => true
  }

  /** What two contexts have in common: whether there is an anchor, which one, the scope
      element and how it is read, and the handling of visited links. */
  function Common(v: Env, w: Env): Allowed {
    Allowed(v.anchor.Some? == w.anchor.Some?, v.anchor == w.anchor, v.scope == w.scope && v.open == w.open,
            v.visitedHandling == w.visitedHandling)
  }

  /** Environments that agree wherever `p` lets a selector look. */
  predicate Alike(v: Env, w: Env, p: Allowed) {
    && v.tree == w.tree && v.quirks == w.quirks && v.parent.None? && w.parent.None?
    && (p.has ==> v.anchor.Some? == w.anchor.Some?)
    && (p.anchor ==> v.anchor == w.anchor)
    && (p.scope ==> v.scope == w.scope && v.open == w.open)
    && (p.links ==> v.visitedHandling == w.visitedHandling)
  }

  lemma {:induction false} SameSat(v: Env, w: Env, p: Allowed, s: seq<Component>, e: nat)
    requires Alike(v, w, p) && IsElement(v.tree, e) && Within(s, p)
    ensures Sat(v, None, s, e) == Sat(w, None, s, e)
    decreases s, 1
  {
    var k := CompoundLen(s);
    forall i | 0 <= i < k
      ensures SatSimple(v, None, s[i], e) == SatSimple(w, None, s[i], e)
    {
      assert WithinComponent(s[i], p);
      SameSatSimple(v, w, p, s[i], e);
    }
    if k < |s| {
      forall y: nat | Related(v.tree, s[k].combinator, y, e)
        ensures SatElement(v, None, s[k + 1..], y) == SatElement(w, None, s[k + 1..], y)
      {
        RelatedIsElement(v.tree, s[k].combinator, y, e);
        SameSat(v, w, p, s[k + 1..], y);
      }
    }
  }

  lemma {:induction false} SameSatList(v: Env, w: Env, p: Allowed, list: SelectorList, e: nat)
    requires Alike(v, w, p) && IsElement(v.tree, e) && WithinList(list, p)
    ensures SatList(v, None, list, e) == SatList(w, None, list, e)
    decreases list, 0
  {
    forall i | 0 <= i < |list|
      ensures Sat(v, None, list[i].components, e) == Sat(w, None, list[i].components, e)
    {
      SameSat(v, w, p, list[i].components, e);
    }
  }

  lemma {:induction false} SameSatSimple(v: Env, w: Env, p: Allowed, x: Component, e: nat)
    requires Alike(v, w, p) && IsElement(v.tree, e) && WithinComponent(x, p)
    ensures SatSimple(v, None, x, e) == SatSimple(w, None, x, e)
    decreases x, 1
  {
    if IsNth(x) {
      SameSatNth(v, w, p, x, e);
    } else if x.Is? {
      SameSatList(v, w, p, x.isList, e);
    } else if x.Where? {
      SameSatList(v, w, p, x.whereList, e);
    } else if x.Negation? {
      SameSatList(v.Negated(), w.Negated(), p, x.notList, e);
    } else if x.Has? {
      SameSatHas(v, w, p, x.relatives, e);
    } else if x.Scope? || x.ImplicitScope? {
      assert OpenLeaf(v, None, x, e) == LeafTruth(v, None, x, e);
      assert OpenLeaf(w, None, x, e) == LeafTruth(w, None, x, e);
    }
  }

  lemma {:induction false} SameSatNth(v: Env, w: Env, p: Allowed, x: Component, e: nat)
    requires Alike(v, w, p) && IsNth(x) && IsElement(v.tree, e) && WithinComponent(x, p)
    ensures SatSimple(v, None, x, e) == SatSimple(w, None, x, e)
    decreases x, 0
  {
    forall y: nat | IsElement(v.tree, y) && x.NthOf?
      ensures SatList(v, None, x.selectors, y) == SatList(w, None, x.selectors, y)
    {
      SameSatList(v, w, p, x.selectors, y);
    }
    assert CountedSiblings(v, None, x, false, e) == CountedSiblings(w, None, x, false, e);
    assert CountedSiblings(v, None, x, true, e) == CountedSiblings(w, None, x, true, e);
    assert SatNthMatches(v, None, x, e) == SatNthMatches(w, None, x, e);
    assert LeafTruth(v, None, x, e) == LeafTruth(w, None, x, e);
  }

  lemma {:induction false} SameSatHas(v: Env, w: Env, p: Allowed, rs: seq<RelativeSelector>, e: nat)
    requires Alike(v, w, p) && IsElement(v.tree, e) && WithinComponent(Has(rs), p)
    ensures SatSimple(v, None, Has(rs), e) == SatSimple(w, None, Has(rs), e)
    decreases rs, 0
  {
    var inner := Allowed(true, true, p.scope, p.links);
    forall i, y | 0 <= i < |rs| && 0 <= y < |v.tree.nodes|
      ensures SatRelative(v, None, rs[i], e, y) == SatRelative(w, None, rs[i], e, y)
    {
      assert WithinRelative(rs[i], p);
      if IsElement(v.tree, y) {
        SameSat(v.(anchor := Some(e)), w.(anchor := Some(e)), inner, rs[i].selector.components, y);
      }
    }
    assert OpenLeaf(v, None, Has(rs), e) == LeafTruth(v, None, Has(rs), e);
    assert OpenLeaf(w, None, Has(rs), e) == LeafTruth(w, None, Has(rs), e);
  }

  /** The check a caller can make before it shares an index of `x` between contexts. */
  predicate MayShare(c: Context, d: Context, x: Component) {
    WithinComponent(x, Common(EnvOf(c), EnvOf(d)))
  }

  /** The contexts in which the engine computes indices. */
  predicate Indexing(c: Context) {
    c.mode.Computes() && c.parent.None?
  }

  lemma ListsAgree(c: Context, d: Context, x: Component, y: nat)
    requires Indexing(c) && Indexing(d) && c.tree == d.tree && c.quirks == d.quirks
    requires IsNth(x) && MayShare(c, d, x) && IsElement(c.tree, y) && ListOf(x) != []
    ensures ListVal(c, x.selectors, y) == ListVal(d, x.selectors, y)
  {
    SameSatList(EnvOf(c), EnvOf(d), Common(EnvOf(c), EnvOf(d)), x.selectors, y);
    MatchingTheorems.ListApproximates(c, None, x.selectors, y);
    MatchingTheorems.ListApproximates(d, None, x.selectors, y);
  }

  /** For such a list, what one context found serves the other, on every tree. */
  lemma IndicesAgree(c: Context, d: Context, x: Component, m: nat -> bool)
    requires Indexing(c) && Indexing(d) && c.tree == d.tree && c.quirks == d.quirks
    requires IsNth(x) && MayShare(c, d, x)
    ensures Means(c, x, m) <==> Means(d, x, m)
    ensures forall fromEnd, e: nat | IsElement(c.tree, e) ::
      SiblingIndex(c, x, fromEnd, e) == SiblingIndex(d, x, fromEnd, e)
  {
    forall y: nat | IsElement(c.tree, y) && ListOf(x) != []
      ensures ListVal(c, x.selectors, y) == ListVal(d, x.selectors, y)
    {
      ListsAgree(c, d, x, y);
    }
    forall fromEnd, e: nat | IsElement(c.tree, e)
      ensures SiblingIndex(c, x, fromEnd, e) == SiblingIndex(d, x, fromEnd, e)
    {
      SameCountedSiblings(c, d, x, e, e + 1, |c.tree.nodes|);
      SameCountedSiblings(c, d, x, e, 0, e);
    }
  }

  lemma {:induction false} SameCountedSiblings(c: Context, d: Context, x: Component, e: nat, lo: nat, hi: nat)
    requires c.tree == d.tree && IsNth(x) && IsElement(c.tree, e)
    requires forall y: nat | IsElement(c.tree, y) && ListOf(x) != [] ::
               ListVal(c, x.selectors, y) == ListVal(d, x.selectors, y)
    ensures CountSiblings(c, x, e, lo, hi) == CountSiblings(d, x, e, lo, hi)
    decreases hi
  {
    if lo < hi {
      SameCountedSiblings(c, d, x, e, lo, hi - 1);
    }
  }
}
