/** The matching engine: candidate loop with restart codes, hint-limited `:has()` walks, sibling counting with a
    cache, and a context set around nested selectors.  Every method answers what `Semantics` defines. */
module MatchingEngine {
  import opened Dom
  import opened KleeneLogic
  import opened Selectors
  import opened Semantics
  import opened MatchResults
  import opened RelativeHints
  import opened NthIndexCache
  import opened NthSharing
  import opened MatchingTheorems
  import opened SharedIndices

  /** `tried` says which related elements are known to fail, walking left from `e`. */
  ghost predicate Tried(c: Context, rest: seq<Component>, comb: Combinator, e: nat, at: nat)
    requires IsElement(c.tree, e)
  {
    && IsElement(c.tree, at)
    && (at == e || (!TriesOnce(comb) && Related(c.tree, comb, at, e)))
    && forall y: nat | Related(c.tree, comb, y, e) && y >= at :: SelVal(c, rest, y).False?
  }

  lemma TriedOneMore(c: Context, rest: seq<Component>, comb: Combinator, e: nat, at: nat)
    requires IsElement(c.tree, e) && Tried(c, rest, comb, e, at)
    ensures var n := NextCandidate(c.tree, comb, at);
            && (n.None? ==> forall y: nat | Related(c.tree, comb, y, e) :: SelVal(c, rest, y).False?)
            && (n.None? && TriesOnce(comb) ==> NextCandidate(c.tree, comb, e).None?)
            && (n.Some? ==>
                  && IsElement(c.tree, n.value)
                  && Related(c.tree, comb, n.value, e)
                  && (forall y: nat | Related(c.tree, comb, y, e) && y > n.value :: SelVal(c, rest, y).False?)
                  && (SelVal(c, rest, n.value).False? && !TriesOnce(comb) ==> Tried(c, rest, comb, e, n.value)))
  {
    NextCandidateIsClosest(c.tree, comb, e, at);
  }

  /** The candidate reached decides: nothing to its right counts any more. */
  lemma CandidateDecides(c: Context, s: seq<Component>, comb: Combinator, rest: seq<Component>, e: nat, m: Kleene,
                         v: Kleene, r: MatchResult)
    requires IsElement(c.tree, e) && CompoundLen(s) < |s|
    requires comb == s[CompoundLen(s)].combinator && rest == s[CompoundLen(s) + 1..]
    requires m == CompoundVal(c, s, e) && !m.False? && !v.False?
    requires CandidateVal(c, rest, comb, e) == v
    requires r == if m.True? && v.True? then Matched else UnknownResult
    ensures Promise(c, r, s, e)
  {
  }

  /** What a failed candidate settles, when it settles anything. */
  function Settled(comb: Combinator, r: MatchResult): Option<MatchResult> {
    if r.NotMatchedGlobally? then Some(NotMatchedGlobally)
    else
      match comb
      case Descendant => None
      case Child => Some(RestartFromClosestDescendant)
      case LaterSibling => if r.RestartFromClosestDescendant? then Some(r) else None
      case NextSibling => Some(r)
  }

  lemma FailureDecides(c: Context, s: seq<Component>, comb: Combinator, rest: seq<Component>, e: nat, at: nat,
                       r: MatchResult)
    requires IsElement(c.tree, e) && CompoundLen(s) < |s|
    requires comb == s[CompoundLen(s)].combinator && rest == s[CompoundLen(s) + 1..]
    requires IsElement(c.tree, at) && Related(c.tree, comb, at, e) && Promise(c, r, rest, at)
    requires forall y: nat | Related(c.tree, comb, y, e) && y > at :: SelVal(c, rest, y).False?
    requires ToKleene(r).False?
    ensures var d := Settled(comb, r); d.Some? ==> Promise(c, d.value, s, e)
  {
    if r.NotMatchedGlobally? {
      GlobalFailurePropagates(c, s, e, at);
    } else if comb.Child? {
      ParentFailed(c, s, e, at);
    } else if IsSiblingCombinator(comb) && r.RestartFromClosestDescendant? {
      DescendantRestartPropagates(c, s, e, at);
    } else if comb.NextSibling? {
      SingleCandidateFailed(c, s, e);
    }
  }

  lemma SingleCandidateFailed(c: Context, s: seq<Component>, e: nat)
    requires IsElement(c.tree, e) && CompoundLen(s) < |s| && s[CompoundLen(s)].combinator.NextSibling?
    requires forall y: nat | Related(c.tree, s[CompoundLen(s)].combinator, y, e) ::
               SelVal(c, s[CompoundLen(s) + 1..], y).False?
    ensures Promise(c, RestartFromClosestLaterSibling, s, e)
  {
    FailsWithoutCandidate(c, s, e);
  }

  /** Indices are looked up in `cache` if `caching` says so, and counted anew otherwise. */
  class MatchingContext {
    const tree: Tree
    const quirks: bool
    const mode: Mode
    const scope: Option<nat>
    const visitedHandling: VisitedHandling
    const cache: NthIndexCache
    const caching: bool
    const lists: Lists
    var inNegation: bool
    var nestingLevel: nat
    var anchor: Option<nat>

    constructor (tree: Tree, quirks: bool, mode: Mode, scope: Option<nat>, visitedHandling: VisitedHandling,
                 cache: NthIndexCache, caching: bool, lists: Lists)
      ensures State() == Context(tree, quirks, mode, false, None, scope, visitedHandling, None) && nestingLevel == 0
      ensures this.cache == cache && this.caching == caching && this.lists == lists
    {
      this.tree, this.quirks, this.mode, this.scope := tree, quirks, mode, scope;
      this.visitedHandling := visitedHandling;
      this.cache, this.caching, this.lists := cache, caching, lists;
      inNegation, nestingLevel, anchor := false, 0, None;
    }

    ghost function State(): Context
      reads this
    {
      Context(tree, quirks, mode, inNegation, anchor, scope, visitedHandling, None)
    }

    /** The cache, if consulted, holds nothing but right indices. */
    ghost predicate Ready()
      reads cache
    {
      caching && mode.Computes() ==>
        IndicesRight(Context(tree, quirks, mode, false, None, scope, visitedHandling, None), lists, cache)
    }

    /** Well-formed, and fit for the cache if that is consulted. */
    ghost predicate Accepts(s: seq<Component>)
      reads this
    {
      WellFormed(s) && (caching ==> Cacheable(s, lists, Steady(State())))
    }

    ghost predicate AcceptsList(list: SelectorList)
      reads this
    {
      WellFormedList(list) && (caching ==> CacheableList(list, lists, Steady(State())))
    }

    ghost predicate AcceptsComponent(x: Component)
      reads this
    {
      WellFormedComponent(x) && (caching ==> CacheableComponent(x, lists, Steady(State())))
    }

    ghost predicate AcceptsRelative(r: RelativeSelector)
      reads this
    {
      && WellFormedRelative(r)
      && (caching ==> Cacheable(r.selector.components, lists, Steady(State())))
    }

    method MatchesSelector(s: seq<Component>, e: nat) returns (b: bool)
      requires Ready() && IsElement(tree, e) && Accepts(s)
      modifies this, cache
      ensures State() == old(State()) && nestingLevel == old(nestingLevel) && Ready()
      ensures b <==> !SelVal(old(State()), s, e).False?
      decreases s, 0, e, 2
    {
      var r := MatchesComplexSelectorInternal(s, e);
      b := ToKleene(r).ToBool(true);
    }

    method MatchesSelectorList(list: SelectorList, e: nat) returns (b: bool)
      requires Ready() && IsElement(tree, e) && AcceptsList(list)
      modifies this, cache
      ensures State() == old(State()) && nestingLevel == old(nestingLevel) && Ready()
      ensures b <==> exists i | 0 <= i < |list| :: !SelVal(old(State()), list[i].components, e).False?
    {
      for n := 0 to |list|
        invariant State() == old(State()) && nestingLevel == old(nestingLevel) && Ready()
        invariant forall i | 0 <= i < n :: SelVal(old(State()), list[i].components, e).False?
      {
        var matches := MatchesSelector(list[n].components, e);
        if matches {
          return true;
        }
      }
      b := false;
    }

    /** The backtracking matcher. */
    method MatchesComplexSelectorInternal(s: seq<Component>, start: nat) returns (r: MatchResult)
      requires Ready() && IsElement(tree, start) && Accepts(s)
      modifies this, cache
      ensures State() == old(State()) && nestingLevel == old(nestingLevel) && Ready()
      ensures Promise(old(State()), r, s, start)
      decreases s, 0, start, 1
    {
      var k := CompoundLen(s);
      var m := MatchesCompoundSelector(s, start);
      if k == |s| {
        return match m
          case True => Matched
          case Unknown => UnknownResult
          case False => RestartFromClosestLaterSibling;
      }
      if m.False? {
        return RestartFromClosestLaterSibling;
      }
      r := MatchesCandidates(s, s[k].combinator, s[k + 1..], m, start);
    }

    /** The candidate loop, once the first compound has not failed. */
    method MatchesCandidates(s: seq<Component>, comb: Combinator, rest: seq<Component>, m: Kleene, start: nat)
      returns (r: MatchResult)
      requires Ready() && IsElement(tree, start) && Accepts(s)
      requires CompoundLen(s) < |s| && comb == s[CompoundLen(s)].combinator && rest == s[CompoundLen(s) + 1..]
      requires m == CompoundVal(State(), s, start) && !m.False?
      modifies this, cache
      ensures State() == old(State()) && nestingLevel == old(nestingLevel) && Ready()
      ensures Promise(old(State()), r, s, start)
      decreases s, 0, start, 0
    {
      ghost var c := State();
      var candidateNotFound :=
        if IsSiblingCombinator(comb) then RestartFromClosestDescendant else NotMatchedGlobally;
      var element := start;
      while true
        invariant State() == c && nestingLevel == old(nestingLevel) && Ready()
        invariant Tried(c, rest, comb, start, element)
        invariant CandidateVal(c, rest, comb, start) == CandidateVal(c, rest, comb, element)
        decreases element
      {
        TriedOneMore(c, rest, comb, start, element);
        var next := NextCandidate(tree, comb, element);
        if next.None? {
          if IsSiblingCombinator(comb) {
            OutOfSiblings(c, s, start);
          } else {
            OutOfAncestors(c, s, start);
          }
          return candidateNotFound;
        }
        element := next.value;
        var result := MatchesComplexSelectorInternal(rest, element);
        if result.Matched? {
          r := if m.Unknown? then UnknownResult else Matched;
          CandidateDecides(c, s, comb, rest, start, m, True, r);
          return;
        }
        if result.UnknownResult? {
          CandidateDecides(c, s, comb, rest, start, m, Unknown, UnknownResult);
          return UnknownResult;
        }
        FailureDecides(c, s, comb, rest, start, element, result);
        if result.NotMatchedGlobally? {
          return NotMatchedGlobally;
        }
        match comb {
          case Descendant =>
          case Child =>
            return RestartFromClosestDescendant;
          case LaterSibling =>
            if result.RestartFromClosestDescendant? {
              return result;
            }
          case NextSibling =>
            return result;
        }
      }
    }

    method MatchesCompoundSelector(s: seq<Component>, e: nat) returns (r: Kleene)
      requires Ready() && IsElement(tree, e) && Accepts(s)
      modifies this, cache
      ensures State() == old(State()) && nestingLevel == old(nestingLevel) && Ready()
      ensures r == CompoundVal(old(State()), s, e)
      decreases s, 0, e, 0
    {
      r := True;
      for n := 0 to CompoundLen(s)
        invariant State() == old(State()) && nestingLevel == old(nestingLevel) && Ready()
        invariant forall i | 0 <= i < n :: !SimpleVal(old(State()), s[i], e).False?
        invariant r.True? || r.Unknown?
        invariant r.Unknown? <==> exists i | 0 <= i < n :: SimpleVal(old(State()), s[i], e).Unknown?
      {
        assert AcceptsComponent(s[n]);
        var v := MatchesSimpleSelector(s[n], e);
        if v.False? {
          return False;
        }
        r := And(r, v);
      }
    }

    method MatchesComplexSelectorList(list: SelectorList, e: nat) returns (r: Kleene)
      requires Ready() && IsElement(tree, e) && AcceptsList(list)
      modifies this, cache
      ensures State() == old(State()) && nestingLevel == old(nestingLevel) && Ready()
      ensures r == ListVal(old(State()), list, e)
      decreases list, 0
    {
      r := False;
      for n := 0 to |list|
        invariant State() == old(State()) && nestingLevel == old(nestingLevel) && Ready()
        invariant forall i | 0 <= i < n :: !SelVal(old(State()), list[i].components, e).True?
        invariant r.False? || r.Unknown?
        invariant r.Unknown? <==> exists i | 0 <= i < n :: SelVal(old(State()), list[i].components, e).Unknown?
      {
        var v := MatchesComplexSelectorInternal(list[n].components, e);
        if ToKleene(v).True? {
          return True;
        }
        r := Or(r, ToKleene(v));
      }
    }

    method MatchesSimpleSelector(x: Component, e: nat) returns (r: Kleene)
      requires Ready() && IsElement(tree, e) && AcceptsComponent(x)
      modifies this, cache
      ensures State() == old(State()) && nestingLevel == old(nestingLevel) && Ready()
      ensures r == SimpleVal(old(State()), x, e)
      decreases x, 5
    {
      if x.Nth? {
        r := MatchesGenericNthChild(x, e);
      } else if x.NthOf? {
        nestingLevel := nestingLevel + 1;
        r := MatchesGenericNthChild(x, e);
        nestingLevel := nestingLevel - 1;
      } else if x.Is? {
        r := MatchesNested(x.isList, e);
      } else if x.Where? {
        r := MatchesNested(x.whereList, e);
      } else if x.Negation? {
        r := MatchesNegated(x.notList, e);
      } else if x.Has? {
        r := MatchRelativeSelectors(x, e);
      } else {
        r := MatchesInPlace(x, e);
      }
    }

    /** The components without selectors of their own. */
    method MatchesInPlace(x: Component, e: nat) returns (r: Kleene)
      requires IsElement(tree, e) && !IsNth(x) && !x.Is? && !x.Where? && !x.Negation? && !x.Has?
      ensures r == SimpleVal(State(), x, e)
    {
      if x.Scope? || x.ImplicitScope? {
        r := MatchesScope(e);
      } else if x.ParentSelector? {
        r := FromBool(if scope.Some? then scope.value == e else Data(tree, e).isRoot);
      } else if x.RelativeSelectorAnchor? {
        r := FromBool(anchor.None? || anchor.value == e);
      } else if x.CombinatorItem? {
        r := False;
      } else if x.LinkPseudoClass? {
        r := FromBool(LinkMatches(visitedHandling, x.visited, Data(tree, e)));
      } else {
        r := FromBool(LeafMatches(quirks, x, Data(tree, e)));
      }
    }

    /** A list one level down. */
    method MatchesNested(list: SelectorList, e: nat) returns (r: Kleene)
      requires Ready() && IsElement(tree, e) && AcceptsList(list)
      modifies this, cache
      ensures State() == old(State()) && nestingLevel == old(nestingLevel) && Ready()
      ensures r == ListVal(old(State()), list, e)
      decreases list, 1
    {
      nestingLevel := nestingLevel + 1;
      r := MatchesComplexSelectorList(list, e);
      nestingLevel := nestingLevel - 1;
    }

    /** A list one level down, under one more negation. */
    method MatchesNegated(list: SelectorList, e: nat) returns (r: Kleene)
      requires Ready() && IsElement(tree, e) && AcceptsList(list)
      modifies this, cache
      ensures State() == old(State()) && nestingLevel == old(nestingLevel) && Ready()
      ensures r == Not(ListVal(old(State()).(inNegation := !old(inNegation)), list, e))
      decreases list, 2
    {
      var oldInNegation := inNegation;
      inNegation := !inNegation;
      var v := MatchesNested(list, e);
      r := Not(v);
      inNegation := oldInNegation;
    }

    method MatchesScope(e: nat) returns (r: Kleene)
      requires IsElement(tree, e)
      ensures r == SimpleVal(State(), Scope, e) == SimpleVal(State(), ImplicitScope, e)
    {
      if !mode.ForStyling? {
        return if mode.ForComparison? then Unknown else FromBool(!inNegation);
      }
      r := FromBool(if scope.Some? then scope.value == e else Data(tree, e).isRoot);
    }

    // ------------------------------------------------------------ :nth-child

    method MatchesGenericNthChild(x: Component, e: nat) returns (r: Kleene)
      requires Ready() && IsNth(x) && IsElement(tree, e) && AcceptsComponent(x)
      modifies this, cache
      ensures State() == old(State()) && nestingLevel == old(nestingLevel) && Ready()
      ensures r == NthVal(old(State()), x, e)
      ensures mode.Computes() ==>
                var c, list := old(State()), ListOf(x);
                r == FromBool(!Data(tree, e).ignoresNth && Chosen(c, list, e) && NthAsks(c, DataOf(x), list, e))
      decreases x, 4
    {
      if mode.Computes() {
        NthMeans(State(), x, e);
      }
      if Data(tree, e).ignoresNth {
        return False;
      }
      var hasSelectors := ListOf(x) != [];
      var selectorsMatch := true;
      if hasSelectors {
        var v := MatchesComplexSelectorList(x.selectors, e);
        selectorsMatch := v.ToBool(true);
      }
      if !mode.Computes() {
        return if selectorsMatch && mode.ForComparison? then Unknown else FromBool(selectorsMatch && !inNegation);
      }
      if !selectorsMatch {
        return False;
      }
      var d := DataOf(x);
      if d.ty.IsOnly() {
        var first := MatchesNthData(x, e, false, 0, 1);
        var last := MatchesNthData(x, e, true, 0, 1);
        return FromBool(first && last);
      }
      var b := MatchesNthData(x, e, d.ty.IsFromEnd(), d.a, d.b);
      r := FromBool(b);
    }

    /** First and last child are decided by one sibling step; everything else takes an index. */
    method MatchesNthData(x: Component, e: nat, fromEnd: bool, a: int, b: int) returns (r: bool)
      requires Ready() && IsNth(x) && AcceptsComponent(x) && mode.Computes() && Indexable(State(), x, e)
      modifies this, cache
      ensures State() == old(State()) && nestingLevel == old(nestingLevel) && Ready()
      ensures r <==> MatchesIndex(a, b, SiblingIndex(old(State()), x, fromEnd, e))
      decreases x, 3
    {
      if a == 0 && b == 1 && !DataOf(x).ty.IsOfType() && ListOf(x) == [] {
        EdgeChild(State(), x, fromEnd, e);
        return if fromEnd then NextSiblingElement(tree, e).None? else PrevSiblingElement(tree, e).None?;
      }
      var at := AddressOf(x);
      var index := LookUpOrCount(x, at, e, fromEnd);
      r := MatchesIndex(a, b, index);
    }

    /** Where this occurrence of the list lies.  Equal lists may lie at several addresses;
        what is proved holds whichever it is. */
    method AddressOf(x: Component) returns (at: nat)
      requires IsNth(x) && AcceptsComponent(x)
      ensures caching ==> LiesAt(x, at, lists)
    {
      at := 0;
      if caching && ListOf(x) != [] {
        at :| at in lists && lists[at] == ListOf(x);
      }
    }

    /** The stored index, or one that is counted and then stored. */
    method LookUpOrCount(x: Component, at: nat, e: nat, fromEnd: bool) returns (index: int)
      requires Ready() && IsNth(x) && AcceptsComponent(x) && mode.Computes() && Indexable(State(), x, e)
      requires caching ==> LiesAt(x, at, lists)
      modifies this, cache
      ensures State() == old(State()) && nestingLevel == old(nestingLevel) && Ready()
      ensures index == SiblingIndex(old(State()), x, fromEnd, e)
      decreases x, 2
    {
      var stored := LookUp(x, at, e, fromEnd);
      if stored.Some? {
        return stored.value;
      }
      index := NthChildIndex(x, at, e, fromEnd);
      if caching {
        RightOutermost(State(), lists, x, fromEnd, e, index);
        Remember(Outermost(State()), lists, cache, x, at, fromEnd, e, index);
      }
    }

    method LookUp(x: Component, at: nat, e: nat, fromEnd: bool) returns (index: Option<int>)
      requires Ready() && IsNth(x) && AcceptsComponent(x) && mode.Computes() && IsElement(tree, e)
      requires caching ==> LiesAt(x, at, lists)
      ensures index.Some? ==> caching && IndexRight(State(), x, fromEnd, e, index.value)
    {
      if !caching {
        return None;
      }
      var indices := cache.Get(QueryOf(x, fromEnd, at));
      if e !in indices {
        return None;
      }
      assert MapRight(Outermost(State()), cache, x, fromEnd, at);
      RightOutermost(State(), lists, x, fromEnd, e, indices[e]);
      index := Some(indices[e]);
    }

    /** Does `y` count for the index of its sibling `e`? */
    method CountsFor(x: Component, y: nat, e: nat) returns (b: bool)
      requires Ready() && IsNth(x) && AcceptsComponent(x) && IsElement(tree, y) && IsElement(tree, e)
      modifies this, cache
      ensures State() == old(State()) && nestingLevel == old(nestingLevel) && Ready()
      ensures b <==> Counts(old(State()), x, y, e)
      decreases x, 0
    {
      b := true;
      if DataOf(x).ty.IsOfType() {
        b := SameType(tree, y, e);
      } else if ListOf(x) != [] {
        var v := MatchesComplexSelectorList(x.selectors, y);
        b := v.ToBool(true);
      }
    }

    /** Counts siblings up to one whose index is stored.  Counting from the end looks for that
        among the earlier ones first. */
    method NthChildIndex(x: Component, at: nat, e: nat, fromEnd: bool) returns (index: int)
      requires Ready() && IsNth(x) && AcceptsComponent(x) && mode.Computes() && Indexable(State(), x, e)
      requires caching ==> LiesAt(x, at, lists)
      modifies this, cache
      ensures State() == old(State()) && nestingLevel == old(nestingLevel) && Ready()
      ensures index == SiblingIndex(old(State()), x, fromEnd, e)
      decreases x, 1, 1
    {
      if caching && fromEnd && cache.Get(QueryOf(x, fromEnd, at)) != map[] {
        var found := FromEarlierSibling(x, at, e);
        if found.Some? {
          return found.value;
        }
      }
      index := CountToStored(x, at, e, fromEnd);
    }

    /** Counts on the side asked for. */
    method CountToStored(x: Component, at: nat, e: nat, fromEnd: bool) returns (index: int)
      requires Ready() && IsNth(x) && AcceptsComponent(x) && mode.Computes() && IsElement(tree, e)
      requires caching ==> LiesAt(x, at, lists)
      modifies this, cache
      ensures State() == old(State()) && nestingLevel == old(nestingLevel) && Ready()
      ensures index == SiblingIndex(old(State()), x, fromEnd, e)
      decreases x, 1, 0
    {
      ghost var c := State();
      index := 1;
      var curr: nat := e;
      while true
        invariant State() == c && nestingLevel == old(nestingLevel) && Ready()
        invariant curr == e || Siblings(tree, curr, e)
        invariant IsElement(tree, curr)
        invariant IndexSoFar(c, x, fromEnd, e, curr, index)
        decreases if fromEnd then |tree.nodes| - curr else curr
      {
        var next := if fromEnd then NextSiblingElement(tree, curr) else PrevSiblingElement(tree, curr);
        if next.None? {
          IndexDone(c, x, fromEnd, e, curr, index);
          break;
        }
        IndexStep(c, x, fromEnd, e, curr, next.value, index);
        curr := next.value;
        var matches := CountsFor(x, curr, e);
        if !matches {
          continue;
        }
        if !fromEnd {
          var stored := LookUp(x, at, curr, fromEnd);
          if stored.Some? {
            IndexAfter(c, x, e, curr, index, stored.value);
            return stored.value + index;
          }
        }
        index := index + 1;
      }
    }

    /** The index from the end, if an earlier sibling has one. */
    method FromEarlierSibling(x: Component, at: nat, e: nat) returns (index: Option<int>)
      requires Ready() && IsNth(x) && AcceptsComponent(x) && mode.Computes() && Indexable(State(), x, e)
      requires caching ==> LiesAt(x, at, lists)
      modifies this, cache
      ensures State() == old(State()) && nestingLevel == old(nestingLevel) && Ready()
      ensures index.Some? ==> index.value == SiblingIndex(old(State()), x, true, e)
      decreases x, 1, 0
    {
      ghost var c := State();
      var n := 1;
      var curr: nat := e;
      while true
        invariant State() == c && nestingLevel == old(nestingLevel) && Ready()
        invariant curr == e || Siblings(tree, curr, e)
        invariant IsElement(tree, curr)
        invariant IndexSoFar(c, x, false, e, curr, n)
        decreases curr
      {
        var prev := PrevSiblingElement(tree, curr);
        if prev.None? {
          return None;
        }
        IndexStep(c, x, false, e, curr, prev.value, n);
        curr := prev.value;
        var matches := CountsFor(x, curr, e);
        if !matches {
          continue;
        }
        var stored := LookUp(x, at, curr, true);
        if stored.Some? {
          IndexBefore(c, x, e, curr, n, stored.value);
          return Some(stored.value - n);
        }
        n := n + 1;
      }
    }

    // -------------------------------------------------------------- :has()

    method MatchRelativeSelectors(x: Component, e: nat) returns (r: Kleene)
      requires Ready() && x.Has? && IsElement(tree, e) && AcceptsComponent(x)
      modifies this, cache
      ensures State() == old(State()) && nestingLevel == old(nestingLevel) && Ready()
      ensures r == SimpleVal(old(State()), x, e)
      decreases x, 4
    {
      if anchor.Some? {
        return False;
      }
      if !mode.Computes() {
        return if mode.ForComparison? then Unknown else FromBool(!inNegation);
      }
      anchor := Some(e);
      nestingLevel := nestingLevel + 1;
      var found := MatchesAnyRelative(x.relatives, e);
      nestingLevel := nestingLevel - 1;
      anchor := None;
      r := FromBool(found);
    }

    method MatchesAnyRelative(rs: seq<RelativeSelector>, e: nat) returns (found: bool)
      requires Ready() && IsElement(tree, e) && anchor == Some(e) && forall i | 0 <= i < |rs| :: AcceptsRelative(rs[i])
      modifies this, cache
      ensures State() == old(State()) && nestingLevel == old(nestingLevel) && Ready()
      ensures found <==> AnyRelative(old(State()).(anchor := None), rs, e)
      decreases rs, 2
    {
      ghost var c := State().(anchor := None);
      for n := 0 to |rs|
        invariant State() == c.(anchor := Some(e)) && nestingLevel == old(nestingLevel) && Ready()
        invariant forall i, y: nat | 0 <= i < n && IsElement(tree, y) :: RelativeVal(c, rs[i], e, y).False?
      {
        found := MatchesRelativeSelector(rs[n], e);
        if found {
          ghost var y: nat :| IsElement(tree, y) && !SelVal(c.(anchor := Some(e)), rs[n].selector.components, y).False?;
          assert !RelativeVal(c, rs[n], e, y).False?;
          return;
        }
        forall y: nat | IsElement(tree, y)
          ensures RelativeVal(c, rs[n], e, y).False?
        {
          assert SelVal(c.(anchor := Some(e)), rs[n].selector.components, y).False?;
        }
      }
      found := false;
    }

    /** Searches only where the hint says, and finds a match exactly when there is
        one anywhere in the tree. */
    method MatchesRelativeSelector(r: RelativeSelector, e: nat) returns (found: bool)
      requires Ready() && IsElement(tree, e) && AcceptsRelative(r) && anchor == Some(e)
      modifies this, cache
      ensures State() == old(State()) && nestingLevel == old(nestingLevel) && Ready()
      ensures found <==> exists y: nat :: IsElement(tree, y) && !SelVal(old(State()), r.selector.components, y).False?
      decreases r, 2
    {
      ghost var c := State();
      var s := r.selector.components;
      forall y: nat | IsElement(tree, y) && !SelVal(c, s, y).False?
        ensures InHint(tree, r.hint, e, y)
      {
        HintLosesNothing(c, s, e, y);
      }
      if r.hint.IsDescendantDirection() {
        found := SearchChildren(r, e);
      } else {
        found := SearchSiblings(r, e);
      }
    }

    method SearchChildren(r: RelativeSelector, e: nat) returns (found: bool)
      requires Ready() && IsElement(tree, e) && AcceptsRelative(r) && r.hint.IsDescendantDirection()
      modifies this, cache
      ensures State() == old(State()) && nestingLevel == old(nestingLevel) && Ready()
      ensures found ==> exists y: nat :: IsElement(tree, y) && !SelVal(old(State()), r.selector.components, y).False?
      ensures !found ==> forall y: nat | IsElement(tree, y) && InHint(tree, r.hint, e, y) ::
                           SelVal(old(State()), r.selector.components, y).False?
      decreases r, 1
    {
      ghost var c := State();
      var s := r.selector.components;
      var next := FirstElementChild(tree, e);
      while next.Some?
        invariant State() == c && nestingLevel == old(nestingLevel) && Ready()
        invariant next.Some? ==> IsChildElement(tree, next.value, e)
        invariant forall x: nat | IsChildElement(tree, x, e) && (next.Some? ==> x < next.value) ::
                    SelVal(c, s, x).False? && (r.hint.IsSubtree() ==> NoneBelow(c, s, x))
        decreases if next.Some? then |tree.nodes| - next.value else -1
      {
        var el := next.value;
        found := MatchesAtChild(r, el);
        if found {
          return;
        }
        next := NextSiblingElement(tree, el);
        assert forall x: nat | IsChildElement(tree, x, e) :: x == el || Siblings(tree, x, el);
      }
      found := false;
      forall y: nat | IsElement(tree, y) && InHint(tree, r.hint, e, y)
        ensures SelVal(c, s, y).False?
      {
        if r.hint.InSubtree? {
          var ch := DescendantThroughChild(tree, y, e);
          assert IsChildElement(tree, ch, e);
        }
      }
    }

    method MatchesAtChild(r: RelativeSelector, e: nat) returns (found: bool)
      requires Ready() && IsElement(tree, e) && AcceptsRelative(r)
      modifies this, cache
      ensures State() == old(State()) && nestingLevel == old(nestingLevel) && Ready()
      ensures found ==> exists y: nat :: IsElement(tree, y) && !SelVal(old(State()), r.selector.components, y).False?
      ensures !found ==> SelVal(old(State()), r.selector.components, e).False?
      ensures !found && r.hint.IsSubtree() ==> NoneBelow(old(State()), r.selector.components, e)
      decreases r, 0
    {
      found := MatchesSelector(r.selector.components, e);
      if !found && r.hint.IsSubtree() {
        found := MatchesRelativeSelectorSubtree(r.selector.components, e);
      }
    }

    method SearchSiblings(r: RelativeSelector, e: nat) returns (found: bool)
      requires Ready() && IsElement(tree, e) && AcceptsRelative(r) && !r.hint.IsDescendantDirection()
      modifies this, cache
      ensures State() == old(State()) && nestingLevel == old(nestingLevel) && Ready()
      ensures found ==> exists y: nat :: IsElement(tree, y) && !SelVal(old(State()), r.selector.components, y).False?
      ensures !found ==> forall y: nat | IsElement(tree, y) && InHint(tree, r.hint, e, y) ::
                           SelVal(old(State()), r.selector.components, y).False?
      decreases r, 1
    {
      ghost var c := State();
      var s := r.selector.components;
      var next := NextSiblingElement(tree, e);
      while next.Some?
        invariant State() == c && nestingLevel == old(nestingLevel) && Ready()
        invariant next.Some? ==> Siblings(tree, next.value, e) && e < next.value
        invariant r.hint.IsNextSibling() ==> next == NextSiblingElement(tree, e)
        invariant forall x: nat | Siblings(tree, x, e) && e < x && (next.Some? ==> x < next.value) ::
                    if r.hint.IsSubtree() then NoneBelow(c, s, x) else SelVal(c, s, x).False?
        decreases if next.Some? then |tree.nodes| - next.value else -1
      {
        var el := next.value;
        found := MatchesAtSibling(r, el);
        if found {
          return;
        }
        if r.hint.IsNextSibling() {
          return;
        }
        next := NextSiblingElement(tree, el);
        assert forall x: nat | Siblings(tree, x, e) :: x == el || Siblings(tree, x, el);
      }
      found := false;
    }

    method MatchesAtSibling(r: RelativeSelector, e: nat) returns (found: bool)
      requires Ready() && IsElement(tree, e) && AcceptsRelative(r)
      modifies this, cache
      ensures State() == old(State()) && nestingLevel == old(nestingLevel) && Ready()
      ensures found ==> exists y: nat :: IsElement(tree, y) && !SelVal(old(State()), r.selector.components, y).False?
      ensures !found && r.hint.IsSubtree() ==> NoneBelow(old(State()), r.selector.components, e)
      ensures !found && !r.hint.IsSubtree() ==> SelVal(old(State()), r.selector.components, e).False?
      decreases r, 0
    {
      if r.hint.IsSubtree() {
        found := MatchesRelativeSelectorSubtree(r.selector.components, e);
      } else {
        found := MatchesSelector(r.selector.components, e);
      }
    }

    method MatchesRelativeSelectorSubtree(s: seq<Component>, e: nat) returns (found: bool)
      requires Ready() && IsElement(tree, e) && Accepts(s)
      modifies this, cache
      ensures State() == old(State()) && nestingLevel == old(nestingLevel) && Ready()
      ensures found ==> exists y: nat :: IsElement(tree, y) && !SelVal(old(State()), s, y).False?
      ensures !found ==> NoneBelow(old(State()), s, e)
      decreases s, 1, |tree.nodes| - e
    {
      ghost var c := State();
      var current := FirstElementChild(tree, e);
      while current.Some?
        invariant State() == c && nestingLevel == old(nestingLevel) && Ready()
        invariant current.Some? ==> IsChildElement(tree, current.value, e)
        invariant forall x: nat | IsChildElement(tree, x, e) && (current.Some? ==> x < current.value) ::
                    SelVal(c, s, x).False? && NoneBelow(c, s, x)
        decreases if current.Some? then |tree.nodes| - current.value else -1
      {
        var el := current.value;
        found := MatchesSelector(s, el);
        if found {
          return;
        }
        found := MatchesRelativeSelectorSubtree(s, el);
        if found {
          return;
        }
        current := NextSiblingElement(tree, el);
        assert forall x: nat | IsChildElement(tree, x, e) :: x == el || Siblings(tree, x, el);
      }
      found := false;
      forall y: nat | IsElement(tree, y) && e in Ancestors(tree, y)
        ensures SelVal(c, s, y).False?
      {
        var ch := DescendantThroughChild(tree, y, e);
        assert IsChildElement(tree, ch, e);
      }
    }
  }

  ghost predicate NoneBelow(c: Context, s: seq<Component>, e: nat) {
    forall y: nat | IsElement(c.tree, y) && e in Ancestors(c.tree, y) :: SelVal(c, s, y).False?
  }

  /** Nothing counts in a stretch without siblings of `e`. */
  lemma {:induction false} NoneBetween(c: Context, x: Component, e: nat, curr: nat, lo: nat, mid: nat, hi: nat)
    requires IsNth(x) && IsElement(c.tree, e)
    requires curr == e || Siblings(c.tree, curr, e)
    requires lo <= mid <= hi
    requires forall y | mid <= y < hi :: !Siblings(c.tree, y, curr)
    ensures CountSiblings(c, x, e, lo, hi) == CountSiblings(c, x, e, lo, mid)
    decreases hi
  {
    if mid < hi {
      assert !Siblings(c.tree, hi - 1, curr);
      NoneBetween(c, x, e, curr, lo, mid, hi - 1);
    }
  }

  /** `index` counts the siblings between `e` and `curr`, the latter included. */
  ghost predicate IndexSoFar(c: Context, x: Component, fromEnd: bool, e: nat, curr: nat, index: int)
    requires IsNth(x) && IsElement(c.tree, e)
  {
    if fromEnd then e <= curr && index == 1 + CountSiblings(c, x, e, e + 1, curr + 1)
    else curr <= e && index + CountSiblings(c, x, e, 0, curr) == 1 + CountSiblings(c, x, e, 0, e)
  }

  lemma IndexStep(c: Context, x: Component, fromEnd: bool, e: nat, curr: nat, next: nat, index: int)
    requires IsNth(x) && IsElement(c.tree, e) && IsElement(c.tree, curr) && (curr == e || Siblings(c.tree, curr, e))
    requires IndexSoFar(c, x, fromEnd, e, curr, index)
    requires (if fromEnd then NextSiblingElement(c.tree, curr) else PrevSiblingElement(c.tree, curr)) == Some(next)
    ensures Siblings(c.tree, next, e)
    ensures IndexSoFar(c, x, fromEnd, e, next, index + if Counts(c, x, next, e) then 1 else 0)
  {
    if fromEnd {
      NoneBetween(c, x, e, curr, e + 1, curr + 1, next);
    } else {
      NoneBetween(c, x, e, curr, 0, next + 1, curr);
    }
  }

  lemma IndexDone(c: Context, x: Component, fromEnd: bool, e: nat, curr: nat, index: int)
    requires IsNth(x) && IsElement(c.tree, e) && IsElement(c.tree, curr) && (curr == e || Siblings(c.tree, curr, e))
    requires IndexSoFar(c, x, fromEnd, e, curr, index)
    requires (if fromEnd then NextSiblingElement(c.tree, curr) else PrevSiblingElement(c.tree, curr)).None?
    ensures index == SiblingIndex(c, x, fromEnd, e)
  {
    if fromEnd {
      NoneBetween(c, x, e, curr, e + 1, curr + 1, |c.tree.nodes|);
    } else {
      NoneBetween(c, x, e, curr, 0, 0, curr);
    }
  }

  lemma {:induction false} CountPositive(c: Context, x: Component, e: nat, lo: nat, y: nat, hi: nat)
    requires IsNth(x) && IsElement(c.tree, e) && lo <= y < hi
    requires Siblings(c.tree, y, e) && Counts(c, x, y, e)
    ensures CountSiblings(c, x, e, lo, hi) > 0
    decreases hi
  {
    if y < hi - 1 {
      CountPositive(c, x, e, lo, y, hi - 1);
    }
  }

  /** "First (last) child" means: no sibling before (after). */
  lemma EdgeChild(c: Context, x: Component, fromEnd: bool, e: nat)
    requires IsNth(x) && IsElement(c.tree, e) && !DataOf(x).ty.IsOfType() && ListOf(x) == []
    ensures MatchesIndex(0, 1, SiblingIndex(c, x, fromEnd, e))
            <==> if fromEnd then NextSiblingElement(c.tree, e).None? else PrevSiblingElement(c.tree, e).None?
  {
    if fromEnd {
      var n := NextSiblingElement(c.tree, e);
      if n.Some? {
        CountPositive(c, x, e, e + 1, n.value, |c.tree.nodes|);
      } else {
        NoneBetween(c, x, e, e, e + 1, e + 1, |c.tree.nodes|);
      }
    } else {
      var p := PrevSiblingElement(c.tree, e);
      if p.Some? {
        CountPositive(c, x, e, 0, p.value, e);
      } else {
        NoneBetween(c, x, e, e, 0, 0, e);
      }
    }
  }
}
