/** What has to hold of a shared nth cache for the matcher to use it, and which selectors
    may be matched with it. */
module SharedIndices {
  import opened Dom
  import opened KleeneLogic
  import opened Selectors
  import opened Semantics
  import opened NthIndexCache
  import opened NthSharing
  import Meaning

  /** The selector lists that are matched, by address.  Equal lists may lie at several. */
  type Lists = map<nat, SelectorList>

  /** `at` is where the list of `x` lies, if it has one. */
  predicate LiesAt(x: Component, at: nat, lists: Lists) {
    IsNth(x) && (ListOf(x) == [] || (at in lists && lists[at] == ListOf(x)))
  }

  /** An nth selector whose list, if it has one, lies somewhere. */
  predicate HasAddress(x: Component, lists: Lists) {
    IsNth(x) && (ListOf(x) == [] || ListOf(x) in lists.Values)
  }

  /** Indices are asked for and stored for elements that match the list themselves. */
  ghost predicate Indexable(c: Context, x: Component, e: nat)
    requires IsNth(x)
  {
    IsElement(c.tree, e) && (!DataOf(x).ty.IsOfType() && ListOf(x) != [] ==> !ListVal(c, ListOf(x), e).False?)
  }

  ghost predicate IndexRight(c: Context, x: Component, fromEnd: bool, e: nat, index: int)
    requires IsNth(x)
  {
    Indexable(c, x, e) && index == SiblingIndex(c, x, fromEnd, e)
  }

  ghost predicate MapRight(c: Context, cache: NthIndexCache, x: Component, fromEnd: bool, at: nat)
    requires IsNth(x)
    reads cache
  {
    var m := cache.Get(QueryOf(x, fromEnd, at));
    forall e | e in m :: IndexRight(c, x, fromEnd, e, m[e])
  }

  /** Every index stored for one of the lists is right in context `c`. */
  ghost predicate IndicesRight(c: Context, lists: Lists, cache: NthIndexCache)
    reads cache
  {
    forall x: Component, fromEnd: bool, at: nat {:trigger MapRight(c, cache, x, fromEnd, at)} | LiesAt(x, at, lists) ::
      MapRight(c, cache, x, fromEnd, at)
  }

  /** A new cache serves every context. */
  lemma NothingStoredIsRight(c: Context, lists: Lists, cache: NthIndexCache)
    requires forall q :: cache.Get(q) == map[]
    ensures IndicesRight(c, lists, cache)
  {
    forall x: Component, fromEnd: bool, at: nat | LiesAt(x, at, lists)
      ensures MapRight(c, cache, x, fromEnd, at)
    {
    }
  }

  // ------------------------------------------- selectors that may use the cache

  /** What a context of a matcher has in common with all others: of the anchor only that
      there is none outside of `:has()`, no polarity, and the handling of visited links
      only if it is the one that matching itself falls back to. */
  function Steady(c: Context): Allowed {
    Allowed(c.anchor.None?, c.anchor.None?, !c.mode.ForRevalidation?, c.visitedHandling.AllLinksUnvisited?)
  }

  /** A syntactic check of every list of `:nth-child(of)`, at every depth. */
  predicate Cacheable(s: seq<Component>, lists: Lists, p: Allowed) {
    forall i | 0 <= i < |s| :: CacheableComponent(s[i], lists, p)
  }

  predicate CacheableList(list: SelectorList, lists: Lists, p: Allowed) {
    forall i | 0 <= i < |list| :: Cacheable(list[i].components, lists, p)
  }

  predicate CacheableComponent(x: Component, lists: Lists, p: Allowed) {
    match x
    case NthOf(_, list) => HasAddress(x, lists) && WithinList(list, p) && CacheableList(list, lists, p)
    case Is(list) => CacheableList(list, lists, p)
    case Where(list) => CacheableList(list, lists, p)
    case Negation(list) => CacheableList(list, lists, p)
    case Has(rs) =>
      forall i | 0 <= i < |rs| :: Cacheable(rs[i].selector.components, lists, p.(has := false, anchor := false))
    case _ => true
  }

  /** A context without an anchor and outside negations. */
  function Outermost(c: Context): Context {
    c.(inNegation := false, anchor := None)
  }

  /** A list that passes the check means the same here as outermost. */
  lemma SteadyMayShare(c: Context, lists: Lists, x: Component)
    requires Indexing(c) && IsNth(x) && CacheableComponent(x, lists, Steady(c))
    ensures MayShare(c, Outermost(c), x) && MayShare(Outermost(c), c, x)
  {
    if x.NthOf? {
      var p := Steady(c);
      WithinMoreList(x.selectors, p, Common(Meaning.EnvOf(c), Meaning.EnvOf(Outermost(c))));
      WithinMoreList(x.selectors, p, Common(Meaning.EnvOf(Outermost(c)), Meaning.EnvOf(c)));
    }
  }

  predicate AtMost(p: Allowed, q: Allowed) {
    (p.has ==> q.has) && (p.anchor ==> q.anchor) && (p.scope ==> q.scope) && (p.links ==> q.links)
  }

  lemma {:induction false} WithinMore(s: seq<Component>, p: Allowed, q: Allowed)
    requires Within(s, p) && AtMost(p, q)
    ensures Within(s, q)
    decreases s
  {
    forall i | 0 <= i < |s|
      ensures WithinComponent(s[i], q)
    {
      WithinMoreComponent(s[i], p, q);
    }
  }

  lemma {:induction false} WithinMoreList(list: SelectorList, p: Allowed, q: Allowed)
    requires WithinList(list, p) && AtMost(p, q)
    ensures WithinList(list, q)
    decreases list
  {
    forall i | 0 <= i < |list|
      ensures Within(list[i].components, q)
    {
      WithinMore(list[i].components, p, q);
    }
  }

  lemma {:induction false} WithinMoreComponent(x: Component, p: Allowed, q: Allowed)
    requires WithinComponent(x, p) && AtMost(p, q)
    ensures WithinComponent(x, q)
    decreases x
  {
    match x {
      case Has(rs) =>
        forall i | 0 <= i < |rs|
          ensures WithinRelative(rs[i], q)
        {
          assert WithinRelative(rs[i], p);
          var inP, inQ := Allowed(true, true, p.scope, p.links), Allowed(true, true, q.scope, q.links);
          WithinMore(rs[i].selector.components, inP, inQ);
        }
      case NthOf(_, list) => WithinMoreList(list, p, q);
      case Is(list) => WithinMoreList(list, p, q);
      case Where(list) => WithinMoreList(list, p, q);
      case Negation(list) => WithinMoreList(list, p, q);
      case _ =>
    }
  }

  // ------------------------------------------------------- using stored indices

  /** An index that is right in one context is right in another that may share it. */
  lemma SharedIndexRight(c: Context, d: Context, x: Component, fromEnd: bool, e: nat, index: int)
    requires Indexing(c) && Indexing(d) && c.tree == d.tree && c.quirks == d.quirks
    requires IsNth(x) && MayShare(c, d, x)
    ensures IndexRight(c, x, fromEnd, e, index) <==> IndexRight(d, x, fromEnd, e, index)
  {
    if IsElement(c.tree, e) {
      IndicesAgree(c, d, x, y => true);
      if ListOf(x) != [] {
        ListsAgree(c, d, x, e);
      }
    }
  }

  /** An index is right in a context of the matcher exactly if it is outermost. */
  lemma RightOutermost(c: Context, lists: Lists, x: Component, fromEnd: bool, e: nat, index: int)
    requires Indexing(c) && IsNth(x) && CacheableComponent(x, lists, Steady(c))
    ensures IndexRight(c, x, fromEnd, e, index) <==> IndexRight(Outermost(c), x, fromEnd, e, index)
  {
    SteadyMayShare(c, lists, x);
    SharedIndexRight(c, Outermost(c), x, fromEnd, e, index);
  }

  /** A cache that serves one matcher serves the next, if every list passes the check. */
  lemma ServesNext(c: Context, d: Context, lists: Lists, cache: NthIndexCache)
    requires Indexing(c) && Indexing(d) && c.tree == d.tree && c.quirks == d.quirks
    requires forall at | at in lists :: WithinList(lists[at], Common(Meaning.EnvOf(c), Meaning.EnvOf(d)))
    ensures IndicesRight(c, lists, cache) ==> IndicesRight(d, lists, cache)
  {
    if IndicesRight(c, lists, cache) {
      forall x: Component, fromEnd: bool, at: nat | LiesAt(x, at, lists)
        ensures MapRight(d, cache, x, fromEnd, at)
      {
        assert MapRight(c, cache, x, fromEnd, at) && MayShare(c, d, x);
        var indices := cache.Get(QueryOf(x, fromEnd, at));
        forall e | e in indices
          ensures IndexRight(d, x, fromEnd, e, indices[e])
        {
          SharedIndexRight(c, d, x, fromEnd, e, indices[e]);
        }
      }
    }
  }

  /** Selectors with one key have one index. */
  lemma SameKeySameIndex(c: Context, lists: Lists, x: Component, at: nat, y: Component, at': nat, fromEnd: bool,
                         other: bool, e: nat, index: int)
    requires LiesAt(x, at, lists) && LiesAt(y, at', lists)
    requires NthIndexCache.SameMap(QueryOf(x, fromEnd, at), QueryOf(y, other, at'))
    ensures fromEnd == other
    ensures IndexRight(c, x, fromEnd, e, index) ==> IndexRight(c, y, other, e, index)
  {
    if IsElement(c.tree, e) {
      SameKeySameCount(c, x, y, e, e + 1, |c.tree.nodes|);
      SameKeySameCount(c, x, y, e, 0, e);
    }
  }

  lemma {:induction false} SameKeySameCount(c: Context, x: Component, y: Component, e: nat, lo: nat, hi: nat)
    requires IsNth(x) && IsNth(y) && IsElement(c.tree, e)
    requires DataOf(x).ty.IsOfType() == DataOf(y).ty.IsOfType()
    requires DataOf(x).ty.IsOfType() || ListOf(x) == ListOf(y)
    ensures CountSiblings(c, x, e, lo, hi) == CountSiblings(c, y, e, lo, hi)
    decreases hi
  {
    if lo < hi {
      SameKeySameCount(c, x, y, e, lo, hi - 1);
    }
  }

  /** Storing a right index leaves every stored index right. */
  method Remember(ghost c: Context, ghost lists: Lists, cache: NthIndexCache, x: Component, at: nat, fromEnd: bool,
                  e: nat, index: int)
    requires IndicesRight(c, lists, cache) && LiesAt(x, at, lists) && IndexRight(c, x, fromEnd, e, index)
    modifies cache
    ensures IndicesRight(c, lists, cache)
  {
    var key := QueryOf(x, fromEnd, at);
    label before:
    cache.Insert(key, e, index);
    forall y: Component, other: bool, at': nat | LiesAt(y, at', lists)
      ensures MapRight(c, cache, y, other, at')
    {
      var theirs := QueryOf(y, other, at');
      assert old@before(MapRight(c, cache, y, other, at'));
      if NthIndexCache.SameMap(key, theirs) {
        assert old@before(cache.Get(key) == cache.Get(theirs));
        assert cache.Get(theirs) == old@before(cache.Get(theirs))[e := index];
        SameKeySameIndex(c, lists, x, at, y, at', fromEnd, other, e, index);
      } else {
        assert cache.Get(theirs) == old@before(cache.Get(theirs));
      }
    }
  }

  /** Counting from another sibling of the same kind is the same. */
  lemma {:induction false} CountFromSibling(c: Context, x: Component, e: nat, y: nat, lo: nat, hi: nat)
    requires IsNth(x) && IsElement(c.tree, e) && Siblings(c.tree, y, e) && Counts(c, x, y, e)
    ensures CountSiblings(c, x, y, lo, hi) == CountSiblings(c, x, e, lo, hi)
    decreases hi
  {
    if lo < hi {
      CountFromSibling(c, x, e, y, lo, hi - 1);
    }
  }

  lemma {:induction false} CountAcross(c: Context, x: Component, e: nat, lo: nat, mid: nat, hi: nat)
    requires IsNth(x) && IsElement(c.tree, e) && lo <= mid <= hi
    ensures CountSiblings(c, x, e, lo, hi) == CountSiblings(c, x, e, lo, mid) + CountSiblings(c, x, e, mid, hi)
    decreases hi
  {
    if mid < hi {
      CountAcross(c, x, e, lo, mid, hi - 1);
    }
  }

  /** From the index of an earlier sibling that counts, counting from the start. */
  lemma IndexAfter(c: Context, x: Component, e: nat, y: nat, index: int, stored: int)
    requires IsNth(x) && IsElement(c.tree, e) && Siblings(c.tree, y, e) && y < e && Counts(c, x, y, e)
    requires index + CountSiblings(c, x, e, 0, y + 1) == 1 + CountSiblings(c, x, e, 0, e)
    requires stored == SiblingIndex(c, x, false, y)
    ensures stored + index == SiblingIndex(c, x, false, e)
  {
    CountFromSibling(c, x, e, y, 0, y);
  }

  /** The same, counting from the end. */
  lemma IndexBefore(c: Context, x: Component, e: nat, y: nat, index: int, stored: int)
    requires IsNth(x) && Indexable(c, x, e) && Siblings(c.tree, y, e) && y < e && Counts(c, x, y, e)
    requires index + CountSiblings(c, x, e, 0, y + 1) == 1 + CountSiblings(c, x, e, 0, e)
    requires stored == SiblingIndex(c, x, true, y)
    ensures stored - index == SiblingIndex(c, x, true, e)
  {
    var n := |c.tree.nodes|;
    assert index == 1 + CountSiblings(c, x, e, y + 1, e) by {
      CountAcross(c, x, e, 0, y + 1, e);
    }
    assert CountSiblings(c, x, e, e, n) == 1 + CountSiblings(c, x, e, e + 1, n) by {
      CountsItself(c, x, e, y);
      CountAcross(c, x, e, e, e + 1, n);
    }
    CountFromSibling(c, x, e, y, y + 1, n);
    CountAcross(c, x, e, y + 1, e, n);
  }

  lemma CountsItself(c: Context, x: Component, e: nat, y: nat)
    requires IsNth(x) && Indexable(c, x, e) && Siblings(c.tree, y, e)
    ensures CountSiblings(c, x, e, e, e + 1) == 1
  {
    assert Siblings(c.tree, e, e) && Counts(c, x, e, e);
    assert CountSiblings(c, x, e, e, e) == 0;
  }
}
