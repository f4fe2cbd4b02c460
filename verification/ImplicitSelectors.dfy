/** What the builder adds on the left of a nested or scoped selector, told by what was pushed: `&` unless the
    pushes refer to it at any depth, and what that makes the selector match. */
module ImplicitSelectors {
  import opened Dom
  import opened KleeneLogic
  import opened Selectors
  import opened Semantics
  import opened MatchResults
  import opened Meaning
  import opened Layout
  import opened Nesting
  import opened MatchingTheorems

  /** What a selector can refer to: the parent rule's selectors, or the scope. */
  datatype Target = TheParent | TheScope

  predicate Flagged(f: Flags, target: Target) {
    if target.TheParent? then f.hasParent else f.hasScope
  }

  /** At any depth.  Of an unparsable selector nothing is kept but whether its text does. */
  ghost predicate Refers(s: Selector, target: Target)
    decreases s
  {
    if s.components == [Invalid] then Flagged(s.flags, target) else RefersAny(s.components, target)
  }

  ghost predicate RefersAny(s: seq<Component>, target: Target)
    decreases s
  {
    exists i | 0 <= i < |s| :: RefersIn(s[i], target)
  }

  ghost predicate RefersInList(list: SelectorList, target: Target)
    decreases list
  {
    exists i | 0 <= i < |list| :: Refers(list[i], target)
  }

  ghost predicate RefersInRelative(r: RelativeSelector, target: Target)
    decreases r
  {
    Refers(r.selector, target)
  }

  ghost predicate RefersIn(x: Component, target: Target)
    decreases x
  {
    match x
    case ParentSelector => target.TheParent?
    case Scope => target.TheScope?
    case ImplicitScope => target.TheScope?
    case NthOf(_, list) => RefersInList(list, target)
    case Is(list) => RefersInList(list, target)
    case Where(list) => RefersInList(list, target)
    case Negation(list) => RefersInList(list, target)
    case Has(rs) => exists i | 0 <= i < |rs| :: RefersInRelative(rs[i], target)
    case _ => false
  }

  // ------------------------------------------------------- flag iff mention

  ghost predicate AllTracked(p: seq<Component>) {
    forall i | 0 <= i < |p| :: TrackedComponent(p[i])
  }

  /** The flags a selector stores say exactly what it refers to. */
  lemma {:induction false} FlagIffRefers(s: Selector, target: Target)
    requires Tracked(s)
    ensures Flagged(s.flags, target) <==> Refers(s, target)
    decreases s, 1
  {
    if s.components != [Invalid] {
      AllFlagsIffRefer(s.components, target);
    }
  }

  lemma {:induction false} AllFlagsIffRefer(s: seq<Component>, target: Target)
    requires AllTracked(s)
    ensures Flagged(AllFlags(s), target) <==> RefersAny(s, target)
    decreases s, 0
  {
    AllFlagsMembers(s);
    forall i | 0 <= i < |s|
      ensures Flagged(FlagsOf(s[i]), target) <==> RefersIn(s[i], target)
      ensures s[i] in s
    {
      ComponentFlagIffRefers(s[i], target);
    }
  }

  lemma {:induction false} ComponentFlagIffRefers(x: Component, target: Target)
    requires TrackedComponent(x)
    ensures Flagged(FlagsOf(x), target) <==> RefersIn(x, target)
    decreases x, 1
  {
    if x.Has? {
      RelativeFlagsMembers(x.relatives);
      forall i | 0 <= i < |x.relatives|
        ensures Flagged(x.relatives[i].selector.flags, target) <==> RefersInRelative(x.relatives[i], target)
      {
        FlagIffRefers(x.relatives[i].selector, target);
      }
    } else if x.Is? || x.Where? || x.Negation? || x.NthOf? {
      ListFlagIffRefers(NestedList(x), target);
    }
  }

  lemma {:induction false} ListFlagIffRefers(list: SelectorList, target: Target)
    requires TrackedList(list)
    ensures Flagged(ListFlags(list), target) <==> RefersInList(list, target)
    decreases list, 0
  {
    ListFlagsMembers(list);
    forall i | 0 <= i < |list|
      ensures Flagged(list[i].flags, target) <==> Refers(list[i], target)
    {
      FlagIffRefers(list[i], target);
    }
  }

  // ------------------------------------------------------ what is added

  /** Read in storage order: the pushes, compound by compound, and one compound more. */
  ghost predicate AddsLeftmost(p: seq<Component>, s: Selector, x: Component) {
    && s.components == MatchOrder(p) + [CombinatorItem(Descendant), x]
    && Compounds(s.components) == Reverse(Compounds(p)) + [[x]]
    && Combinators(s.components) == Reverse(Combinators(p)) + [Descendant]
  }

  ghost predicate AddsNothing(p: seq<Component>, s: Selector) {
    && s.components == MatchOrder(p)
    && Compounds(s.components) == Reverse(Compounds(p)) && Combinators(s.components) == Reverse(Combinators(p))
  }

  lemma AddedOrNot(p: seq<Component>, r: ParseRelative)
    ensures var implicit := ImplicitAddition(AllFlags(p), r);
            if implicit == [] then AddsNothing(p, Built(p, r))
            else implicit[0] == CombinatorItem(Descendant) && AddsLeftmost(p, Built(p, r), implicit[1])
  {
    ImplicitCompoundIsLeftmost(p, r);
    assert MatchOrder(p) + [] == MatchOrder(p);
  }

  ghost predicate AddsParentIfUnmentioned(p: seq<Component>, s: Selector) {
    if RefersAny(p, TheParent) then AddsNothing(p, s) else AddsLeftmost(p, s, ParentSelector)
  }

  ghost predicate AddsScopeIfUnmentioned(p: seq<Component>, s: Selector) {
    if RefersAny(p, TheParent) || RefersAny(p, TheScope) then AddsNothing(p, s) else AddsLeftmost(p, s, ImplicitScope)
  }

  /** A nested selector gets one `&` on its left unless it refers to it already. */
  lemma NestingAddsParent(p: seq<Component>)
    requires AllTracked(p)
    ensures AddsParentIfUnmentioned(p, Built(p, ForNesting))
  {
    AllFlagsIffRefer(p, TheParent);
    AddedOrNot(p, ForNesting);
  }

  /** A scoped selector gets the scope on its left unless it refers to that or to `&`. */
  lemma ScopeAddsScope(p: seq<Component>)
    requires AllTracked(p)
    ensures AddsScopeIfUnmentioned(p, Built(p, ForScope))
  {
    AllFlagsIffRefer(p, TheParent);
    AllFlagsIffRefer(p, TheScope);
    AddedOrNot(p, ForScope);
  }

  lemma OthersAddNothing(p: seq<Component>)
    ensures AddsNothing(p, Built(p, ForHas)) && AddsNothing(p, Built(p, No))
  {
    AddedOrNot(p, ForHas);
    AddedOrNot(p, No);
  }

  /** In the end a nested selector always refers to the parent, and a scoped one to the
      parent or the scope. */
  lemma BuiltRefers(p: seq<Component>)
    requires AllTracked(p)
    ensures RefersAny(Built(p, ForNesting).components, TheParent)
    ensures var s := Built(p, ForScope).components; RefersAny(s, TheParent) || RefersAny(s, TheScope)
  {
    NestingAddsParent(p);
    ScopeAddsScope(p);
    SameReferences(p, TheParent);
    SameReferences(p, TheScope);
    LeftmostRefers(p, ParentSelector, TheParent);
    LeftmostRefers(p, ImplicitScope, TheScope);
  }

  lemma SameReferences(p: seq<Component>, target: Target)
    ensures RefersAny(MatchOrder(p), target) <==> RefersAny(p, target)
  {
    forall x: Component
      ensures x in MatchOrder(p) <==> x in p
    {
      MatchOrderMembers(p, x);
    }
    ReferencesAreMembers(p, target);
    ReferencesAreMembers(MatchOrder(p), target);
  }

  lemma ReferencesAreMembers(s: seq<Component>, target: Target)
    ensures RefersAny(s, target) <==> exists x :: x in s && RefersIn(x, target)
  {
    if RefersAny(s, target) {
      var i :| 0 <= i < |s| && RefersIn(s[i], target);
      assert s[i] in s;
    }
  }

  lemma LeftmostRefers(p: seq<Component>, x: Component, target: Target)
    requires RefersIn(x, target)
    ensures RefersAny(MatchOrder(p) + [CombinatorItem(Descendant), x], target)
  {
    var s := MatchOrder(p) + [CombinatorItem(Descendant), x];
    assert s[|s| - 1] == x;
  }

  // ------------------------------------------------------- what it means

  /** The pushes match at `e` with their leftmost compound below an element where `x` does. */
  ghost predicate BelowOne(c: Context, p: seq<Component>, x: Component, e: nat, f: seq<nat>, a: nat) {
    && IsAssignment(EnvOf(c), MatchOrder(p), f) && f != [] && f[0] == e
    && IsElement(c.tree, f[|f| - 1]) && a in Ancestors(c.tree, f[|f| - 1])
    && IsElement(c.tree, a) && SimpleVal(c, x, a).True?
  }

  ghost predicate MatchesBelow(c: Context, p: seq<Component>, x: Component, e: nat) {
    exists f: seq<nat>, a: nat :: BelowOne(c, p, x, e, f, a)
  }

  lemma LeftmostMeansBelow(c: Context, p: seq<Component>, x: Component, e: nat)
    requires IsElement(c.tree, e) && c.mode.ForStyling? && !x.CombinatorItem?
    ensures SelVal(c, MatchOrder(p) + [CombinatorItem(Descendant), x], e).True? <==> MatchesBelow(c, p, x, e)
  {
    var m := MatchOrder(p);
    var s := m + [CombinatorItem(Descendant), x];
    MatchedIffAssignment(c, s, e);
    forall f: seq<nat> | IsAssignment(EnvOf(c), s, f) && f[0] == e
      ensures BelowOne(c, p, x, e, f[..|f| - 1], f[|f| - 1])
    {
      LastIsBelow(c, m, x, f);
      LeafIsExact(c, x, f[|f| - 1]);
    }
    forall f: seq<nat>, a: nat | BelowOne(c, p, x, e, f, a)
      ensures IsAssignment(EnvOf(c), s, f + [a]) && (f + [a])[0] == e
    {
      LeafIsExact(c, x, a);
      BelowExtends(c, m, x, f, a);
    }
  }

  lemma LeafIsExact(c: Context, x: Component, a: nat)
    requires IsElement(c.tree, a) && c.mode.ForStyling? && !x.CombinatorItem?
    ensures SimpleVal(c, x, a).True? <==> SatSimple(EnvOf(c), None, x, a)
    ensures SatSimple(EnvOf(c), None, x, a) <==> SatCompound(EnvOf(c), None, [x], a)
  {
    SimpleApproximates(c, None, x, a);
    CompoundLenUnique([x], 1);
    assert [x][0] == x;
  }

  lemma LastIsBelow(c: Context, m: seq<Component>, x: Component, f: seq<nat>)
    requires !x.CombinatorItem? && IsAssignment(EnvOf(c), m + [CombinatorItem(Descendant), x], f)
    ensures |f| > 1 && IsAssignment(EnvOf(c), m, f[..|f| - 1])
    ensures IsElement(c.tree, f[|f| - 1]) && SatCompound(EnvOf(c), None, [x], f[|f| - 1])
    ensures IsElement(c.tree, f[|f| - 2]) && f[|f| - 1] in Ancestors(c.tree, f[|f| - 2])
  {
    AppendImplicit(m, x);
    OneCombinatorLess(m);
    AssignsInit(EnvOf(c), Compounds(m), Combinators(m), [x], Descendant, f);
  }

  lemma AssignsInit(v: Env, compounds: seq<seq<Component>>, combinators: seq<Combinator>, compound: seq<Component>,
                    comb: Combinator, f: seq<nat>)
    requires AssignsAll(v, compounds + [compound], combinators + [comb], f) && |compounds| > 0
    ensures |f| > 1 && AssignsAll(v, compounds, combinators, f[..|f| - 1])
    ensures IsElement(v.tree, f[|f| - 1]) && SatCompound(v, None, compound, f[|f| - 1])
    ensures IsElement(v.tree, f[|f| - 2]) && Related(v.tree, comb, f[|f| - 1], f[|f| - 2])
  {
    var all, between, n := compounds + [compound], combinators + [comb], |f| - 1;
    assert all[n] == compound && between[n - 1] == comb;
    assert forall i | 0 <= i < n :: all[i] == compounds[i];
    assert forall i | 0 <= i < n - 1 :: between[i] == combinators[i];
  }

  lemma BelowExtends(c: Context, m: seq<Component>, x: Component, f: seq<nat>, a: nat)
    requires !x.CombinatorItem? && IsAssignment(EnvOf(c), m, f) && f != []
    requires IsElement(c.tree, a) && SatCompound(EnvOf(c), None, [x], a)
    requires IsElement(c.tree, f[|f| - 1]) && a in Ancestors(c.tree, f[|f| - 1])
    ensures IsAssignment(EnvOf(c), m + [CombinatorItem(Descendant), x], f + [a])
  {
    AppendImplicit(m, x);
    AssignsOneMoreAtEnd(EnvOf(c), Compounds(m), Combinators(m), [x], Descendant, f, a);
  }

  lemma AssignsOneMoreAtEnd(v: Env, compounds: seq<seq<Component>>, combinators: seq<Combinator>,
                            compound: seq<Component>, comb: Combinator, f: seq<nat>, a: nat)
    requires AssignsAll(v, compounds, combinators, f) && f != [] && IsElement(v.tree, a)
    requires SatCompound(v, None, compound, a) && Related(v.tree, comb, a, f[|f| - 1])
    ensures AssignsAll(v, compounds + [compound], combinators + [comb], f + [a])
  {
  }

  /** A nested selector that does not name `&` matches below what the parent list matches. */
  lemma NestedMeansBelowParent(c: Context, p: seq<Component>, e: nat)
    requires IsElement(c.tree, e) && c.mode.ForStyling? && AllTracked(p) && !RefersAny(p, TheParent)
    ensures SelVal(c, Built(p, ForNesting).components, e).True? <==> MatchesBelow(c, p, ParentSelector, e)
    ensures c.parent.Some? ==> forall a: nat | IsElement(c.tree, a) ::
              SimpleVal(c, ParentSelector, a) == ListVal(c.(parent := None), c.parent.value, a)
  {
    NestingAddsParent(p);
    LeftmostMeansBelow(c, p, ParentSelector, e);
  }

  /** The scope is the scope element, or without one the root. */
  lemma ScopeMeans(c: Context, a: nat)
    requires IsElement(c.tree, a) && c.mode.ForStyling?
    ensures SimpleVal(c, ImplicitScope, a) == SimpleVal(c, Scope, a)
    ensures SimpleVal(c, Scope, a).True? <==> if c.scope.Some? then c.scope == Some(a) else Data(c.tree, a).isRoot
  {
  }

  /** A scoped selector that names neither scope nor `&` matches below the scope element. */
  lemma ScopedMeansBelowScope(c: Context, p: seq<Component>, e: nat)
    requires IsElement(c.tree, e) && c.mode.ForStyling? && AllTracked(p)
    requires !RefersAny(p, TheParent) && !RefersAny(p, TheScope)
    ensures SelVal(c, Built(p, ForScope).components, e).True? <==> MatchesBelow(c, p, ImplicitScope, e)
  {
    ScopeAddsScope(p);
    LeftmostMeansBelow(c, p, ImplicitScope, e);
  }
}
