/** What selectors mean, in two values: elements are related by combinators,
    siblings are counted as sets, `:has()` ranges over the whole tree.  A resolution
    can fix the leaves that invalidation leaves open (`:has`, `:scope`, `:nth-*`). */
module Meaning {
  import opened Dom
  import opened KleeneLogic
  import opened Selectors
  import opened Semantics
  import opened MatchResults

  /** `open`, when present, says that `:scope` is not computed, and whether an odd number
      of negations is around: it is then read as true outside of them. */
  datatype Env = Env(
    tree: Tree,
    quirks: bool,
    anchor: Option<nat>,
    scope: Option<nat>,
    open: Option<bool>,
    visitedHandling: VisitedHandling,
    parent: Option<SelectorList>)
  {
    function Negated(): Env {
      if open.None? then this else this.(open := Some(!open.value))
    }
  }

  type Resolution = (Component, nat) -> bool

  function EnvOf(c: Context): Env {
    Env(c.tree, c.quirks, c.anchor, c.scope, if c.mode.ForRevalidation? then Some(c.inNegation) else None,
        c.visitedHandling, c.parent)
  }

  function EnvRank(v: Env): nat {
    if v.parent.Some? then 1 else 0
  }

  predicate IsScopeElement(v: Env, e: nat)
    requires IsElement(v.tree, e)
  {
    if v.scope.Some? then v.scope.value == e else Data(v.tree, e).isRoot
  }

  ghost predicate Sat(v: Env, rho: Option<Resolution>, s: seq<Component>, e: nat)
    requires IsElement(v.tree, e)
    decreases EnvRank(v), s, 1
  {
    var k := CompoundLen(s);
    && SatCompound(v, rho, s, e)
    && (k < |s| ==> exists y: nat :: Related(v.tree, s[k].combinator, y, e) && SatElement(v, rho, s[k + 1..], y))
  }

  ghost predicate SatElement(v: Env, rho: Option<Resolution>, s: seq<Component>, e: nat)
    decreases EnvRank(v), s, 2
  {
    IsElement(v.tree, e) && Sat(v, rho, s, e)
  }

  ghost predicate SatCompound(v: Env, rho: Option<Resolution>, s: seq<Component>, e: nat)
    requires IsElement(v.tree, e)
    decreases EnvRank(v), s, 0
  {
    forall i | 0 <= i < CompoundLen(s) :: SatSimple(v, rho, s[i], e)
  }

  ghost predicate SatList(v: Env, rho: Option<Resolution>, list: SelectorList, e: nat)
    requires IsElement(v.tree, e)
    decreases EnvRank(v), list, 0
  {
    exists i | 0 <= i < |list| :: Sat(v, rho, list[i].components, e)
  }

  ghost predicate SatRelative(v: Env, rho: Option<Resolution>, r: RelativeSelector, anchor: nat, x: nat)
    decreases EnvRank(v), r
  {
    IsElement(v.tree, x) && Sat(v.(anchor := Some(anchor)), rho, r.selector.components, x)
  }

  ghost predicate SatCounts(v: Env, rho: Option<Resolution>, x: Component, y: nat, e: nat)
    requires IsNth(x) && IsElement(v.tree, e)
    decreases EnvRank(v), x, 0
  {
    && Siblings(v.tree, y, e)
    && if DataOf(x).ty.IsOfType() then SameType(v.tree, y, e)
       else ListOf(x) == [] || SatList(v, rho, x.selectors, y)
  }

  /** The siblings on one side that count for the index of `e`. */
  ghost function CountedSiblings(v: Env, rho: Option<Resolution>, x: Component, fromEnd: bool, e: nat): set<nat>
    requires IsNth(x) && IsElement(v.tree, e)
    decreases EnvRank(v), x, 1
  {
    set y: nat | y < |v.tree.nodes| && (if fromEnd then e < y else y < e) && SatCounts(v, rho, x, y, e)
  }

  ghost predicate SatNthMatches(v: Env, rho: Option<Resolution>, x: Component, e: nat)
    requires IsNth(x) && IsElement(v.tree, e)
    decreases EnvRank(v), x, 2
  {
    var d := DataOf(x);
    if d.ty.IsOnly() then
      && MatchesIndex(0, 1, 1 + |CountedSiblings(v, rho, x, false, e)|)
      && MatchesIndex(0, 1, 1 + |CountedSiblings(v, rho, x, true, e)|)
    else
      MatchesIndex(d.a, d.b, 1 + |CountedSiblings(v, rho, x, d.ty.IsFromEnd(), e)|)
  }

  /** The real truth of a leaf that a resolution may replace. */
  ghost predicate LeafTruth(v: Env, rho: Option<Resolution>, x: Component, e: nat)
    requires x.Scope? || x.ImplicitScope? || x.Has? || IsNth(x)
    requires IsElement(v.tree, e)
    decreases EnvRank(v), x, 3
  {
    match x
    case Has(rs) => exists i, y | 0 <= i < |rs| && 0 <= y < |v.tree.nodes| :: SatRelative(v, rho, rs[i], e, y)
    case Nth(_) => SatNthMatches(v, rho, x, e)
    case NthOf(_, _) => SatNthMatches(v, rho, x, e)
    case _ => if v.open.Some? then !v.open.value else IsScopeElement(v, e)
  }

  ghost predicate OpenLeaf(v: Env, rho: Option<Resolution>, x: Component, e: nat)
    requires x.Scope? || x.ImplicitScope? || x.Has? || IsNth(x)
    requires IsElement(v.tree, e)
    decreases EnvRank(v), x, 4
  {
    if rho.Some? then rho.value(x, e) else LeafTruth(v, rho, x, e)
  }

  ghost predicate SatSimple(v: Env, rho: Option<Resolution>, x: Component, e: nat)
    requires IsElement(v.tree, e)
    decreases EnvRank(v), x, 5
  {
    match x
    case Scope => OpenLeaf(v, rho, x, e)
    case ImplicitScope => OpenLeaf(v, rho, x, e)
    case ParentSelector =>
      if v.parent.Some? then SatList(v.(parent := None), rho, v.parent.value, e) else IsScopeElement(v, e)
    case RelativeSelectorAnchor => v.anchor.None? || v.anchor.value == e
    case Nth(_) => !Data(v.tree, e).ignoresNth && OpenLeaf(v, rho, x, e)
    case NthOf(_, list) =>
      && !Data(v.tree, e).ignoresNth
      && (list == [] || SatList(v, rho, list, e))
      && OpenLeaf(v, rho, x, e)
    case Is(list) => SatList(v, rho, list, e)
    case Where(list) => SatList(v, rho, list, e)
    case Negation(list) => !SatList(v.Negated(), rho, list, e)
    case Has(_) => v.anchor.None? && OpenLeaf(v, rho, x, e)
    case CombinatorItem(_) => false
    case LinkPseudoClass(visited) => LinkMatches(v.visitedHandling, visited, Data(v.tree, e))
    case _ => LeafMatches(v.quirks, x, Data(v.tree, e))
  }
}
