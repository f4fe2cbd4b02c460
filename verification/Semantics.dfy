/** The value the engine gives a selector, in every matching mode, without any of
    its pruning: no restart codes, no search-space hints, no caches. */
module Semantics {
  import opened Dom
  import opened KleeneLogic
  import opened Selectors

  /** Matching for styling, for checking whether two elements may share a style, for
      invalidation, and for before/after comparison. */
  datatype Mode = ForStyling | ForRevalidation | ForInvalidation | ForComparison {
    /** Does it evaluate `:nth-*` and `:has()`, or leave them open? */
    predicate Computes() { ForStyling? || ForRevalidation? }
  }

  /** Which links `:link` and `:visited` match. */
  datatype VisitedHandling = AllLinksUnvisited | AllLinksVisitedAndUnvisited | RelevantLinkVisited {
    predicate MatchesVisited() { RelevantLinkVisited? || AllLinksVisitedAndUnvisited? }

    predicate MatchesUnvisited() { AllLinksUnvisited? || AllLinksVisitedAndUnvisited? }
  }

  /** The part of the matching context that answers depend on.  `scope` is the
      scope element; `anchor` the anchor of the enclosing `:has()`.
      `parent`, when present, is the selector list that `&` stands for. */
  datatype Context = Context(
    tree: Tree,
    quirks: bool,
    mode: Mode,
    inNegation: bool,
    anchor: Option<nat>,
    scope: Option<nat>,
    visitedHandling: VisitedHandling,
    parent: Option<SelectorList>)

  function Rank(c: Context): nat {
    if c.parent.Some? then 1 else 0
  }

  /** The answer for a leaf that is not computed. */
  function Unsettled(c: Context): Kleene {
    if c.mode.ForComparison? then Unknown else FromBool(!c.inNegation)
  }

  predicate IsScope(c: Context, e: nat)
    requires IsElement(c.tree, e)
  {
    if c.scope.Some? then c.scope.value == e else Data(c.tree, e).isRoot
  }

  /** `:visited`, or else `:link`. */
  predicate LinkMatches(handling: VisitedHandling, visited: bool, d: ElementData) {
    d.isLink && if visited then handling.MatchesVisited() else handling.MatchesUnvisited()
  }

  /** The element a combinator looks at next, walking left through the selector. */
  function NextCandidate(t: Tree, comb: Combinator, e: nat): (n: Option<nat>)
    requires IsElement(t, e)
    ensures n.Some? ==> n.value < e && IsElement(t, n.value)
  {
    if IsSiblingCombinator(comb) then PrevSiblingElement(t, e) else ParentElement(t, e)
  }

  predicate TriesOnce(comb: Combinator) {
    comb.Child? || comb.NextSibling?
  }

  /** An+B as the engine evaluates it: 32-bit subtraction and truncating division. */
  function TruncatedQuotient(x: int, d: int): int
    requires d != 0
  {
    if x >= 0 then (if d > 0 then x / d else -(x / -d))
    else (if d > 0 then -((-x) / d) else (-x) / (-d))
  }

  const MIN_I32: int := -0x8000_0000
  const MAX_I32: int := 0x7fff_ffff

  predicate MatchesIndex(a: int, b: int, i: int) {
    var an := i - b;
    if an < MIN_I32 || an > MAX_I32 then false
    else if a == 0 || (a == -1 && an == MIN_I32) then an == 0
    else var n := TruncatedQuotient(an, a); n >= 0 && a * n == an
  }

  predicate SameType(t: Tree, x: nat, e: nat)
    requires IsElement(t, x) && IsElement(t, e)
  {
    Data(t, x).localName == Data(t, e).localName && Data(t, x).ns == Data(t, e).ns
  }

  // ------------------------------------------------------------- the values

  /** Value of the complex selector `s` at `e`: its first compound, combined with
      the first candidate that does not fail. */
  ghost function SelVal(c: Context, s: seq<Component>, e: nat): Kleene
    requires IsElement(c.tree, e)
    decreases Rank(c), s, e, 3
  {
    var k := CompoundLen(s);
    var m := CompoundVal(c, s, e);
    if k == |s| || m.False? then m
    else And(m, CandidateVal(c, s[k + 1..], s[k].combinator, e))
  }

  /** Value of the first candidate, nearest first, that does not fail. */
  ghost function CandidateVal(c: Context, s: seq<Component>, comb: Combinator, e: nat): Kleene
    requires IsElement(c.tree, e)
    decreases Rank(c), s, e, 4
  {
    var n := NextCandidate(c.tree, comb, e);
    if n.None? then False
    else
      var v := SelVal(c, s, n.value);
      if !v.False? || TriesOnce(comb) then v else CandidateVal(c, s, comb, n.value)
  }

  ghost function CompoundVal(c: Context, s: seq<Component>, e: nat): Kleene
    requires IsElement(c.tree, e)
    decreases Rank(c), s, e, 2
  {
    if exists i | 0 <= i < CompoundLen(s) :: SimpleVal(c, s[i], e).False? then False
    else if exists i | 0 <= i < CompoundLen(s) :: SimpleVal(c, s[i], e).Unknown? then Unknown
    else True
  }

  ghost function ListVal(c: Context, list: SelectorList, e: nat): Kleene
    requires IsElement(c.tree, e)
    decreases Rank(c), list, e, 1
  {
    if exists i | 0 <= i < |list| :: SelVal(c, list[i].components, e).True? then True
    else if exists i | 0 <= i < |list| :: SelVal(c, list[i].components, e).Unknown? then Unknown
    else False
  }

  predicate IsNth(x: Component) {
    x.Nth? || x.NthOf?
  }

  function DataOf(x: Component): NthData
    requires IsNth(x)
  {
    if x.Nth? then x.data else x.ofData
  }

  function ListOf(x: Component): SelectorList
    requires IsNth(x)
  {
    if x.Nth? then [] else x.selectors
  }

  /** Does `y` count for the index of its sibling `e`? */
  ghost predicate Counts(c: Context, x: Component, y: nat, e: nat)
    requires IsNth(x) && IsElement(c.tree, e) && IsElement(c.tree, y)
    decreases Rank(c), x, 0
  {
    if DataOf(x).ty.IsOfType() then SameType(c.tree, y, e)
    else ListOf(x) == [] || !ListVal(c, x.selectors, y).False?
  }

  ghost function CountSiblings(c: Context, x: Component, e: nat, lo: nat, hi: nat): nat
    requires IsNth(x) && IsElement(c.tree, e)
    decreases Rank(c), x, 1, if hi <= lo then 0 else hi - lo
  {
    if hi <= lo then 0
    else
      CountSiblings(c, x, e, lo, hi - 1)
      + (if Siblings(c.tree, hi - 1, e) && Counts(c, x, hi - 1, e) then 1 else 0)
  }

  /** One-based position of `e` among the siblings that count. */
  ghost function SiblingIndex(c: Context, x: Component, fromEnd: bool, e: nat): int
    requires IsNth(x) && IsElement(c.tree, e)
    decreases Rank(c), x, 2, 0
  {
    1 + if fromEnd then CountSiblings(c, x, e, e + 1, |c.tree.nodes|) else CountSiblings(c, x, e, 0, e)
  }

  ghost predicate NthMatches(c: Context, x: Component, e: nat)
    requires IsNth(x) && IsElement(c.tree, e)
    decreases Rank(c), x, 3, 0
  {
    var d := DataOf(x);
    if d.ty.IsOnly() then
      MatchesIndex(0, 1, SiblingIndex(c, x, false, e)) && MatchesIndex(0, 1, SiblingIndex(c, x, true, e))
    else
      MatchesIndex(d.a, d.b, SiblingIndex(c, x, d.ty.IsFromEnd(), e))
  }

  ghost function NthVal(c: Context, x: Component, e: nat): Kleene
    requires IsNth(x) && IsElement(c.tree, e)
    decreases Rank(c), x, 4, 0
  {
    if Data(c.tree, e).ignoresNth then False
    else if ListOf(x) != [] && ListVal(c, x.selectors, e).False? then False
    else if !c.mode.Computes() then Unsettled(c)
    else FromBool(NthMatches(c, x, e))
  }

  /** Some element of the tree matches one of the relative selectors, with `e` as
      the anchor. */
  ghost predicate AnyRelative(c: Context, rs: seq<RelativeSelector>, e: nat)
    requires IsElement(c.tree, e)
    decreases Rank(c), rs, e, 1
  {
    exists i, x: nat | 0 <= i < |rs| && IsElement(c.tree, x) :: !RelativeVal(c, rs[i], e, x).False?
  }

  ghost function RelativeVal(c: Context, r: RelativeSelector, anchor: nat, x: nat): Kleene
    requires IsElement(c.tree, x)
    decreases Rank(c), r
  {
    SelVal(c.(anchor := Some(anchor)), r.selector.components, x)
  }

  ghost function SimpleVal(c: Context, x: Component, e: nat): Kleene
    requires IsElement(c.tree, e)
    decreases Rank(c), x, 5, 0
  {
    match x
    case Scope => if c.mode.ForStyling? then FromBool(IsScope(c, e)) else Unsettled(c)
    case ImplicitScope => if c.mode.ForStyling? then FromBool(IsScope(c, e)) else Unsettled(c)
    case ParentSelector =>
      if c.parent.Some? then ListVal(c.(parent := None), c.parent.value, e) else FromBool(IsScope(c, e))
    case RelativeSelectorAnchor => FromBool(c.anchor.None? || c.anchor.value == e)
    case Nth(_) => NthVal(c, x, e)
    case NthOf(_, _) => NthVal(c, x, e)
    case Is(list) => ListVal(c, list, e)
    case Where(list) => ListVal(c, list, e)
    case Negation(list) => Not(ListVal(c.(inNegation := !c.inNegation), list, e))
    case Has(rs) =>
      if c.anchor.Some? then False
      else if !c.mode.Computes() then Unsettled(c)
      else FromBool(AnyRelative(c, rs, e))
    case CombinatorItem(_) => False
    case LinkPseudoClass(visited) => FromBool(LinkMatches(c.visitedHandling, visited, Data(c.tree, e)))
    case _ => FromBool(LeafMatches(c.quirks, x, Data(c.tree, e)))
  }
}
