/** One nth cache asked from several matching contexts.  The key is the address of a
    selector list alone, but what a list matches can depend on the context. */
module NthCacheContexts {
  import opened Dom
  import opened KleeneLogic
  import opened Selectors
  import opened Semantics
  import opened MatchResults
  import opened Meaning
  import MatchingTheorems
  import opened NthIndexCache
  import opened NthSharing
  import MatchingEngine

  // ----------------------------------- one cache, asked from many contexts

  /** One question to the cache: an nth selector, in a context, at an element that
      matches its list.  `address` is where the list lies, `matches` what it matches. */
  datatype Question = Question(
    context: Context,
    x: Component,
    matches: nat -> bool,
    address: nat,
    fromEnd: bool,
    e: nat)

  ghost predicate WellAsked(q: Question) {
    && Indexing(q.context) && IsNth(q.x) && IsElement(q.context.tree, q.e)
    && Means(q.context, q.x, q.matches) && Eligible(Asked(q), q.matches, q.e)
  }

  function Asked(q: Question): Query
    requires IsNth(q.x)
  {
    QueryOf(q.x, q.fromEnd, q.address)
  }

  /** Questions about one list must come from contexts that may share it. */
  ghost predicate Compatible(q: Question, r: Question)
    requires IsNth(q.x) && IsNth(r.x)
  {
    && q.context.tree == r.context.tree && q.context.quirks == r.context.quirks
    && (ListOf(q.x) != [] && ListOf(r.x) != [] && q.address == r.address ==>
          ListOf(q.x) == ListOf(r.x) && MayShare(q.context, r.context, q.x))
  }

  ghost predicate AllCompatible(questions: seq<Question>) {
    && (forall i | 0 <= i < |questions| :: WellAsked(questions[i]))
    && (forall i, j | 0 <= i < |questions| && 0 <= j < |questions| :: Compatible(questions[i], questions[j]))
  }

  lemma SharedIndex(q: Question, r: Question, e: nat)
    requires WellAsked(q) && WellAsked(r) && Compatible(q, r) && IsElement(q.context.tree, e)
    requires NthIndexCache.SameMap(Asked(q), Asked(r)) && Eligible(Asked(q), q.matches, e)
    ensures Eligible(Asked(r), r.matches, e)
    ensures PlainIndex(q.context.tree, Asked(q), q.matches, e) == PlainIndex(q.context.tree, Asked(r), r.matches, e)
  {
    if Asked(q).ofType || Asked(q).list.None? {
      ShareIndices(q.context.tree, Asked(q), Asked(r), q.matches, r.matches, e);
    } else {
      ListsAgree(q.context, r.context, q.x, e);
      IndicesAgree(q.context, r.context, q.x, q.matches);
      assert Means(r.context, q.x, q.matches) && Means(r.context, q.x, r.matches);
      PlainIndexIsSiblingIndex(r.context, q.x, q.fromEnd, q.address, q.matches, e);
      PlainIndexIsSiblingIndex(r.context, q.x, q.fromEnd, q.address, r.matches, e);
    }
  }

  /** A cache whose stored indices are right for every one of the questions. */
  ghost predicate Serves(cache: NthIndexCache, questions: seq<Question>)
    requires forall i | 0 <= i < |questions| :: IsNth(questions[i].x)
    reads cache
  {
    forall i | 0 <= i < |questions| ::
      Holds(questions[i].context.tree, Asked(questions[i]), questions[i].matches, cache.Get(Asked(questions[i])))
  }

  /** One cache answers questions from contexts that may share its lists, in any order:
      every answer is the index that the matcher would count in its own context. */
  method AskAll(cache: NthIndexCache, questions: seq<Question>) returns (answers: seq<int>)
    requires AllCompatible(questions) && Serves(cache, questions)
    modifies cache
    ensures Serves(cache, questions) && |answers| == |questions|
    ensures forall i | 0 <= i < |questions| ::
              answers[i] == SiblingIndex(questions[i].context, questions[i].x, questions[i].fromEnd, questions[i].e)
  {
    answers := [];
    for n := 0 to |questions|
      invariant Serves(cache, questions) && |answers| == n
      invariant forall i | 0 <= i < n ::
                  answers[i] == SiblingIndex(questions[i].context, questions[i].x, questions[i].fromEnd, questions[i].e)
    {
      var answer := Ask(cache, questions, n);
      answers := answers + [answer];
    }
  }

  method Ask(cache: NthIndexCache, questions: seq<Question>, n: nat) returns (answer: int)
    requires AllCompatible(questions) && Serves(cache, questions) && n < |questions|
    modifies cache
    ensures Serves(cache, questions)
    ensures answer == SiblingIndex(questions[n].context, questions[n].x, questions[n].fromEnd, questions[n].e)
  {
    var q := questions[n];
    var t := q.context.tree;
    answer := cache.Index(t, Asked(q), q.matches, q.e);
    forall i | 0 <= i < |questions|
      ensures Holds(t, Asked(questions[i]), questions[i].matches, cache.Get(Asked(questions[i])))
    {
      var r := questions[i];
      assert Compatible(q, r) && Holds(t, Asked(r), r.matches, old(cache.Get(Asked(r))));
      if NthIndexCache.SameMap(Asked(q), Asked(r)) {
        SharedIndex(q, r, q.e);
      }
    }
    PlainIndexIsSiblingIndex(q.context, q.x, q.fromEnd, q.address, q.matches, q.e);
  }

  /** The nth test as the engine makes it, with the cache: the first and the last child
      by one sibling step, everything else by a cached index.  The two questions are
      the two directions of one. */
  method MatchesNthThroughCache(cache: NthIndexCache, questions: seq<Question>, forward: nat, backward: nat)
    returns (r: bool)
    requires AllCompatible(questions) && Serves(cache, questions)
    requires forward < |questions| && backward < |questions| && !questions[forward].fromEnd
    requires questions[backward] == questions[forward].(fromEnd := true)
    modifies cache
    ensures Serves(cache, questions)
    ensures r <==> NthMatches(questions[forward].context, questions[forward].x, questions[forward].e)
    ensures var q := questions[forward]; r <==> MatchingTheorems.NthAsks(q.context, DataOf(q.x), ListOf(q.x), q.e)
  {
    MatchingTheorems.NthAsksTheSame(questions[forward].context, questions[forward].x, questions[forward].e);
    var d := DataOf(questions[forward].x);
    if d.ty.IsOnly() {
      var first := MatchesIndexThroughCache(cache, questions, forward, 0, 1);
      var last := MatchesIndexThroughCache(cache, questions, backward, 0, 1);
      return first && last;
    }
    r := MatchesIndexThroughCache(cache, questions, if d.ty.IsFromEnd() then backward else forward, d.a, d.b);
  }

  method MatchesIndexThroughCache(cache: NthIndexCache, questions: seq<Question>, n: nat, a: int, b: int)
    returns (r: bool)
    requires AllCompatible(questions) && Serves(cache, questions) && n < |questions|
    modifies cache
    ensures Serves(cache, questions)
    ensures var q := questions[n]; r <==> MatchesIndex(a, b, SiblingIndex(q.context, q.x, q.fromEnd, q.e))
  {
    var q := questions[n];
    if a == 0 && b == 1 && !DataOf(q.x).ty.IsOfType() && ListOf(q.x) == [] {
      MatchingEngine.EdgeChild(q.context, q.x, q.fromEnd, q.e);
      var t := q.context.tree;
      return if q.fromEnd then NextSiblingElement(t, q.e).None? else PrevSiblingElement(t, q.e).None?;
    }
    var index := Ask(cache, questions, n);
    r := MatchesIndex(a, b, index);
  }

  /** Asked from a second context, the cache gives the first context's index.  That is
      right if the list passes the check against what the contexts have in common. */
  method AskTwice(cache: NthIndexCache, q: Question, d: Context, k: nat -> bool) returns (first: int, second: int)
    requires WellAsked(q) && Indexing(d) && q.context.tree == d.tree && q.context.quirks == d.quirks
    requires Means(d, q.x, k) && Holds(d.tree, Asked(q), q.matches, cache.Get(Asked(q)))
    modifies cache
    ensures second == first == SiblingIndex(q.context, q.x, q.fromEnd, q.e)
    ensures MayShare(q.context, d, q.x) ==> second == SiblingIndex(d, q.x, q.fromEnd, q.e)
  {
    PlainIndexIsSiblingIndex(q.context, q.x, q.fromEnd, q.address, q.matches, q.e);
    first := cache.Index(d.tree, Asked(q), q.matches, q.e);
    assert NthIndexCache.SameMap(Asked(q), Asked(q));
    second := cache.Index(d.tree, Asked(q), k, q.e);
    if MayShare(q.context, d, q.x) {
      IndicesAgree(q.context, d, q.x, k);
    }
  }

  // ----------------------------- lists that fail one conjunct each

  const PLAIN: ElementData := ElementData("p", "", None, [], [], false, false, false, false, false, {})

  /** An outer and an inner scope, and in the inner one two siblings: a `.b` that has a
      child and is a link, and a `.c`. */
  const FAMILY: TreeData := TreeData(
    [Element(PLAIN), Element(PLAIN), Element(PLAIN.(classes := ["b"], isLink := true)), Element(PLAIN),
      Element(PLAIN.(classes := ["c"]))],
    [None, Some(0), Some(1), Some(2), Some(1)])

  ghost function InFamily(anchor: Option<nat>, scope: Option<nat>): Context {
    Context(FAMILY, false, ForStyling, false, anchor, scope, AllLinksUnvisited, None)
  }

  ghost predicate IsChildOf(t: Tree, y: nat, e: nat) {
    IsElement(t, y) && ParentElement(t, y) == Some(e)
  }

  lemma FamilyTies()
    ensures IsTree(FAMILY) && (forall y: nat :: IsElement(FAMILY, y) <==> y < 5)
    ensures Siblings(FAMILY, 2, 4) && !Siblings(FAMILY, 0, 4) && !Siblings(FAMILY, 1, 4) && !Siblings(FAMILY, 3, 4)
    ensures IsChildOf(FAMILY, 3, 2) && IsChildOf(FAMILY, 2, 1) && !exists y: nat :: IsChildOf(FAMILY, y, 4)
  {
  }

  /** `:nth-child(1 of list)` at the `.c`: first or second, as the `.b` matches or not. */
  lemma IndexInFamily(c: Context, list: SelectorList)
    requires c.tree == FAMILY && list != []
    ensures SiblingIndex(c, OfList(list), false, 4) == if ListVal(c, list, 2).False? then 1 else 2
  {
    var x := OfList(list);
    FamilyTies();
    assert CountSiblings(c, x, 4, 0, 0) == 0;
    assert CountSiblings(c, x, 4, 0, 1) == 0;
    assert CountSiblings(c, x, 4, 0, 2) == 0;
    assert CountSiblings(c, x, 4, 0, 3) == if Counts(c, x, 2, 4) then 1 else 0;
    assert CountSiblings(c, x, 4, 0, 4) == CountSiblings(c, x, 4, 0, 3);
  }

  function OfList(list: SelectorList): Component {
    NthOf(NthData(OfChild, 0, 1), list)
  }

  /** In both contexts the `.c` matches the list, but its index differs. */
  ghost predicate Disagree(c: Context, d: Context, list: SelectorList)
    requires c.tree == d.tree && IsElement(c.tree, 4)
  {
    && !ListVal(c, list, 4).False? && !ListVal(d, list, 4).False?
    && SiblingIndex(c, OfList(list), false, 4) != SiblingIndex(d, OfList(list), false, 4)
  }

  /** Styling contexts disagree where the meanings of the list at the `.b` do. */
  lemma DisagreeInFamily(c: Context, d: Context, list: SelectorList)
    requires c.tree == d.tree == FAMILY && Indexing(c) && Indexing(d) && list != []
    requires IsElement(c.tree, 2) && IsElement(c.tree, 4)
    requires SatList(EnvOf(c), None, list, 4) && SatList(EnvOf(d), None, list, 4)
    requires SatList(EnvOf(c), None, list, 2) != SatList(EnvOf(d), None, list, 2)
    ensures Disagree(c, d, list)
  {
    forall b: Context, y: nat | (b == c || b == d) && (y == 2 || y == 4)
      ensures ListVal(b, list, y) == FromBool(SatList(EnvOf(b), None, list, y))
    {
      MatchingTheorems.ListApproximates(b, None, list, y);
    }
    IndexInFamily(c, list);
    IndexInFamily(d, list);
  }

  const HAS_CHILD: seq<Component> := [ExplicitUniversalType, CombinatorItem(Child), RelativeSelectorAnchor]

  /** `:not(:has(> *))` */
  const CHILDLESS: SelectorList := [
    Selector([Negation([Selector([Has([RelativeSelector(InChild, Selector(HAS_CHILD, NO_FLAGS))])], NO_FLAGS)])],
             NO_FLAGS)]

  lemma OneComponent(v: Env, x: Component, e: nat)
    requires IsElement(v.tree, e) && !x.CombinatorItem?
    ensures Sat(v, None, [x], e) == SatSimple(v, None, x, e)
  {
    CompoundLenUnique([x], 1);
    assert [x][0] == x;
  }

  lemma OneSelector(v: Env, x: Component, e: nat)
    requires IsElement(v.tree, e) && !x.CombinatorItem?
    ensures SatList(v, None, [Selector([x], NO_FLAGS)], e) == SatSimple(v, None, x, e)
  {
    OneComponent(v, x, e);
    var list := [Selector([x], NO_FLAGS)];
    assert list[0].components == [x];
  }

  /** `> *` seen from an anchor: the children of the anchor. */
  lemma ChildOfAnchor(v: Env, e: nat, y: nat)
    requires IsElement(v.tree, e) && IsElement(v.tree, y) && v.anchor == Some(e)
    ensures Sat(v, None, HAS_CHILD, y) <==> ParentElement(v.tree, y) == Some(e)
  {
    CompoundLenUnique(HAS_CHILD, 1);
    assert HAS_CHILD[1 + 1..] == [RelativeSelectorAnchor];
    assert SatCompound(v, None, HAS_CHILD, y) by {
      assert HAS_CHILD[0] == ExplicitUniversalType;
    }
    forall p: nat | IsElement(v.tree, p)
      ensures SatElement(v, None, [RelativeSelectorAnchor], p) <==> p == e
    {
      OneComponent(v, RelativeSelectorAnchor, p);
    }
    assert Sat(v, None, HAS_CHILD, y) <==>
      exists p: nat :: Related(v.tree, Child, p, y) && SatElement(v, None, [RelativeSelectorAnchor], p);
    assert Related(v.tree, Child, e, y) <==> ParentElement(v.tree, y) == Some(e);
  }

  /** Does `e` have a child, says `:has(> *)`? */
  lemma HasChildMeans(v: Env, e: nat)
    requires IsElement(v.tree, e) && v.anchor.None?
    ensures var rs := [RelativeSelector(InChild, Selector(HAS_CHILD, NO_FLAGS))];
            SatSimple(v, None, Has(rs), e) <==> exists y: nat :: IsChildOf(v.tree, y, e)
  {
    var rs := [RelativeSelector(InChild, Selector(HAS_CHILD, NO_FLAGS))];
    forall y: nat | IsElement(v.tree, y)
      ensures SatRelative(v, None, rs[0], e, y) <==> IsChildOf(v.tree, y, e)
    {
      ChildOfAnchor(v.(anchor := Some(e)), e, y);
    }
    assert OpenLeaf(v, None, Has(rs), e) == LeafTruth(v, None, Has(rs), e);
  }

  lemma ChildlessMeans(v: Env, e: nat)
    requires IsElement(v.tree, e)
    ensures SatList(v, None, CHILDLESS, e) <==> v.anchor.Some? || !exists y: nat :: IsChildOf(v.tree, y, e)
  {
    var has := Has([RelativeSelector(InChild, Selector(HAS_CHILD, NO_FLAGS))]);
    OneSelector(v, Negation([Selector([has], NO_FLAGS)]), e);
    OneSelector(v.Negated(), has, e);
    if v.anchor.None? {
      HasChildMeans(v.Negated(), e);
    }
  }

  lemma WithinOne(x: Component, p: Allowed)
    requires WithinComponent(x, p)
    ensures WithinList([Selector([x], NO_FLAGS)], p)
  {
  }

  lemma ChildlessRefersTo()
    ensures WithinList(CHILDLESS, Allowed(true, false, false, false))
  {
    var p := Allowed(true, false, false, false);
    var has := Has([RelativeSelector(InChild, Selector(HAS_CHILD, NO_FLAGS))]);
    assert WithinRelative(has.relatives[0], p);
    WithinOne(has, p);
    WithinOne(Negation([Selector([has], NO_FLAGS)]), p);
  }

  /** `:nth-child(1 of :not(:has(> *)))`, with and without an anchor. */
  lemma AnchorsCanDisagree()
    ensures IsTree(FAMILY)
    ensures WithinList(CHILDLESS, Allowed(true, false, false, false))
    ensures Disagree(InFamily(None, None), InFamily(Some(0), None), CHILDLESS)
  {
    FamilyTies();
    ChildlessRefersTo();
    var c, d := InFamily(None, None), InFamily(Some(0), None);
    ChildlessMeans(EnvOf(c), 2);
    ChildlessMeans(EnvOf(c), 4);
    ChildlessMeans(EnvOf(d), 2);
    ChildlessMeans(EnvOf(d), 4);
    DisagreeInFamily(c, d, CHILDLESS);
  }

  // ------------------------------------- the scope, visited links, the anchor

  /** A selector, or `.c`. */
  function OrLast(s: Selector): SelectorList {
    [s, Selector([Class("c")], NO_FLAGS)]
  }

  lemma OrLastMeans(v: Env, s: Selector)
    requires v.tree == FAMILY && !v.quirks && IsElement(v.tree, 2) && IsElement(v.tree, 4)
    ensures SatList(v, None, OrLast(s), 4)
    ensures SatList(v, None, OrLast(s), 2) <==> Sat(v, None, s.components, 2)
  {
    OneComponent(v, Class("c"), 2);
    OneComponent(v, Class("c"), 4);
    assert Data(v.tree, 2).classes[0] == "b" && Data(v.tree, 4).classes[0] == "c";
    assert OrLast(s)[0] == s && OrLast(s)[1].components == [Class("c")];
  }

  lemma OrLastDisagrees(c: Context, d: Context, s: Selector)
    requires IsTree(FAMILY) && IsElement(FAMILY, 2) && IsElement(FAMILY, 4)
    requires c.tree == d.tree == FAMILY && !c.quirks && !d.quirks && Indexing(c) && Indexing(d)
    requires Sat(EnvOf(c), None, s.components, 2) != Sat(EnvOf(d), None, s.components, 2)
    ensures Disagree(c, d, OrLast(s))
  {
    OrLastMeans(EnvOf(c), s);
    OrLastMeans(EnvOf(d), s);
    DisagreeInFamily(c, d, OrLast(s));
  }

  lemma OrLastRefersTo(s: Selector, p: Allowed)
    requires Within(s.components, p)
    ensures WithinList(OrLast(s), p)
  {
    assert Within([Class("c")], p);
  }

  /** `:scope > .b` */
  const SCOPED: Selector := Selector([Class("b"), CombinatorItem(Child), Scope], Flags(false, true))

  /** How a context reads `:scope` at the inner scope. */
  predicate InnerIsScope(v: Env) {
    if v.open.Some? then !v.open.value else v.scope == Some(1)
  }

  lemma ScopedMeans(v: Env)
    requires v.tree == FAMILY && !v.quirks && IsElement(v.tree, 2) && IsElement(v.tree, 1)
    ensures Sat(v, None, SCOPED.components, 2) <==> InnerIsScope(v)
  {
    var s := SCOPED.components;
    CompoundLenUnique(s, 1);
    assert s[1 + 1..] == [Scope];
    assert SatCompound(v, None, s, 2) by {
      assert Data(v.tree, 2).classes[0] == "b" && s[0] == Class("b");
    }
    OneComponent(v, Scope, 1);
    assert OpenLeaf(v, None, Scope, 1) == LeafTruth(v, None, Scope, 1) == InnerIsScope(v);
    assert Related(v.tree, Child, 1, 2) && forall p: nat | Related(v.tree, Child, p, 2) :: p == 1;
  }

  lemma ScopedRefersTo()
    ensures WithinList(OrLast(SCOPED), Allowed(false, false, true, false))
  {
    OrLastRefersTo(SCOPED, Allowed(false, false, true, false));
  }

  /** `:scope > .b, .c` in two scopes, one inside the other. */
  lemma ScopesCanDisagree()
    ensures IsTree(FAMILY)
    ensures WithinList(OrLast(SCOPED), Allowed(false, false, true, false))
    ensures Disagree(InFamily(None, Some(1)), InFamily(None, Some(0)), OrLast(SCOPED))
  {
    FamilyTies();
    ScopedRefersTo();
    var c, d := InFamily(None, Some(1)), InFamily(None, Some(0));
    ScopedMeans(EnvOf(c));
    ScopedMeans(EnvOf(d));
    OrLastDisagrees(c, d, SCOPED);
  }

  /** The same list for revalidation and for styling, without a scope, and for
      revalidation outside and inside a negation. */
  lemma RevalidationCanDisagree()
    ensures IsTree(FAMILY)
    ensures WithinList(OrLast(SCOPED), Allowed(false, false, true, false))
    ensures var c, r := InFamily(None, None), InFamily(None, None).(mode := ForRevalidation);
            && Disagree(r, c, OrLast(SCOPED))
            && Disagree(r, r.(inNegation := true), OrLast(SCOPED))
  {
    FamilyTies();
    ScopedRefersTo();
    var c, r := InFamily(None, None), InFamily(None, None).(mode := ForRevalidation);
    var n := r.(inNegation := true);
    ScopedMeans(EnvOf(c));
    ScopedMeans(EnvOf(r));
    ScopedMeans(EnvOf(n));
    OrLastDisagrees(r, c, SCOPED);
    OrLastDisagrees(r, n, SCOPED);
  }

  const VISITED: Selector := Selector([LinkPseudoClass(true)], NO_FLAGS)

  /** `:visited, .c` in the ordinary and in the visited pass. */
  lemma VisitedPassesCanDisagree()
    ensures IsTree(FAMILY)
    ensures WithinList(OrLast(VISITED), Allowed(false, false, false, true))
    ensures var c := InFamily(None, None);
            Disagree(c, c.(visitedHandling := RelevantLinkVisited), OrLast(VISITED))
  {
    FamilyTies();
    OrLastRefersTo(VISITED, Allowed(false, false, false, true));
    var c, d := InFamily(None, None), InFamily(None, None).(visitedHandling := RelevantLinkVisited);
    OneComponent(EnvOf(c), LinkPseudoClass(true), 2);
    OneComponent(EnvOf(d), LinkPseudoClass(true), 2);
    OrLastDisagrees(c, d, VISITED);
  }

  /** The anchor itself, outside of `:has()`.  The parser never puts it there. */
  const ANCHORED: Selector := Selector([RelativeSelectorAnchor], NO_FLAGS)

  lemma AnchoredMeans(v: Env)
    requires v.tree == FAMILY && v.anchor.Some? && IsElement(v.tree, 2)
    ensures Sat(v, None, ANCHORED.components, 2) <==> v.anchor == Some(2)
  {
    OneComponent(v, RelativeSelectorAnchor, 2);
  }

  /** Two anchors that differ, and a list, built by hand, that names the anchor. */
  lemma FreeAnchorsCanDisagree()
    ensures IsTree(FAMILY)
    ensures WithinList(OrLast(ANCHORED), Allowed(false, true, false, false))
    ensures Disagree(InFamily(Some(2), None), InFamily(Some(0), None), OrLast(ANCHORED))
  {
    FamilyTies();
    OrLastRefersTo(ANCHORED, Allowed(false, true, false, false));
    var c, d := InFamily(Some(2), None), InFamily(Some(0), None);
    AnchoredMeans(EnvOf(c));
    AnchoredMeans(EnvOf(d));
    OrLastDisagrees(c, d, ANCHORED);
  }
}
