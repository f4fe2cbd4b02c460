/** Replacing `&`: every occurrence of the parent selector, at any depth, becomes
    `:is(<parent list>)`.  The code decides where to look by the stored flags alone, so
    it is right only as long as the flags never miss an occurrence. */
module Nesting {
  import opened Dom
  import opened KleeneLogic
  import opened Selectors
  import opened Semantics
  import opened Layout

  predicate AnyParent(list: SelectorList) {
    exists i | 0 <= i < |list| :: list[i].flags.hasParent
  }

  predicate AnyRelativeParent(rs: seq<RelativeSelector>) {
    exists i | 0 <= i < |rs| :: rs[i].selector.flags.hasParent
  }

  // ------------------------------------------------- what the code computes

  function Replaced(s: Selector, p: SelectorList): Selector
    decreases s
  {
    if !s.flags.hasParent then s
    else Selector(ReplacedComponents(s.components, p),
                  Union(Flags(false, s.flags.hasScope), InsertedFlags(s.components, p)))
  }

  function ReplacedComponents(s: seq<Component>, p: SelectorList): (r: seq<Component>)
    ensures |r| == |s|
    decreases s
  {
    seq(|s|, i requires 0 <= i < |s| => ReplacedComponent(s[i], p))
  }

  function ReplacedComponent(x: Component, p: SelectorList): Component
    decreases x, 1
  {
    match x
    case ParentSelector => Is(p)
    case NthOf(d, list) => NthOf(d, ReplacedList(list, p))
    case Is(list) => Is(ReplacedList(list, p))
    case Where(list) => Where(ReplacedList(list, p))
    case Negation(list) => Negation(ReplacedList(list, p))
    case Has(rs) => Has(ReplacedRelatives(rs, p))
    case _ => x
  }

  function ReplacedList(list: SelectorList, p: SelectorList): (r: SelectorList)
    ensures |r| == |list|
    decreases list
  {
    seq(|list|, i requires 0 <= i < |list| => Replaced(list[i], p))
  }

  function ReplacedRelatives(rs: seq<RelativeSelector>, p: SelectorList): (r: seq<RelativeSelector>)
    ensures |r| == |rs|
    decreases rs
  {
    seq(|rs|, i requires 0 <= i < |rs| => ReplacedRelative(rs[i], p))
  }

  function ReplacedRelative(r: RelativeSelector, p: SelectorList): RelativeSelector
    decreases r
  {
    RelativeSelector(r.hint, Replaced(r.selector, p))
  }

  /** The flags a replaced component brings along. */
  function Inserted(x: Component, p: SelectorList): Flags
    decreases x, 1
  {
    match x
    case ParentSelector => ListFlags(p)
    case NthOf(_, list) => if AnyParent(list) then ListFlags(ReplacedList(list, p)) else NO_FLAGS
    case Is(list) => if AnyParent(list) then ListFlags(ReplacedList(list, p)) else NO_FLAGS
    case Where(list) => if AnyParent(list) then ListFlags(ReplacedList(list, p)) else NO_FLAGS
    case Negation(list) => if AnyParent(list) then ListFlags(ReplacedList(list, p)) else NO_FLAGS
    case Has(rs) => if AnyRelativeParent(rs) then RelativeFlags(ReplacedRelatives(rs, p)) else NO_FLAGS
    case _ => NO_FLAGS
  }

  function InsertedFlags(s: seq<Component>, p: SelectorList): Flags
    decreases s
  {
    if s == [] then NO_FLAGS else Union(InsertedFlags(s[..|s| - 1], p), Inserted(s[|s| - 1], p))
  }

  lemma OneMoreInserted(s: seq<Component>, n: nat, p: SelectorList)
    requires n < |s|
    ensures InsertedFlags(s[..n + 1], p) == Union(InsertedFlags(s[..n], p), Inserted(s[n], p))
  {
    assert s[..n + 1][..n] == s[..n];
  }

  method ReplaceParentSelector(s: Selector, parent: SelectorList) returns (r: Selector)
    ensures r == Replaced(s, parent)
    decreases s
  {
    var flags := Flags(false, s.flags.hasScope);
    if !s.flags.hasParent {
      return s;
    }
    var items: seq<Component> := [];
    for n := 0 to |s.components|
      invariant |items| == n && forall i | 0 <= i < n :: items[i] == ReplacedComponent(s.components[i], parent)
      invariant flags == Union(Flags(false, s.flags.hasScope), InsertedFlags(s.components[..n], parent))
    {
      OneMoreInserted(s.components, n, parent);
      var item;
      item, flags := ReplaceOnComponent(s.components[n], parent, flags);
      items := items + [item];
    }
    assert s.components[..|s.components|] == s.components;
    assert items == ReplacedComponents(s.components, parent);
    r := Selector(items, flags);
  }

  method ReplaceOnComponent(x: Component, parent: SelectorList, flags: Flags) returns (y: Component, flags': Flags)
    ensures y == ReplacedComponent(x, parent) && flags' == Union(flags, Inserted(x, parent))
    decreases x, 2
  {
    flags' := flags;
    if x.ParentSelector? {
      flags' := Union(flags', ListFlags(parent));
      y := Is(parent);
    } else if x.Negation? {
      var l;
      l, flags' := ReplaceOrKeep(x.notList, parent, flags');
      y := Negation(l);
    } else if x.Is? {
      var l;
      l, flags' := ReplaceOrKeep(x.isList, parent, flags');
      y := Is(l);
    } else if x.Where? {
      var l;
      l, flags' := ReplaceOrKeep(x.whereList, parent, flags');
      y := Where(l);
    } else if x.NthOf? {
      var l;
      l, flags' := ReplaceOrKeep(x.selectors, parent, flags');
      y := NthOf(x.ofData, l);
    } else if x.Has? {
      var l;
      l, flags' := ReplaceOnRelativeSelectorList(x.relatives, parent, flags');
      y := Has(l);
    } else {
      y := x;
    }
  }

  method ReplaceOrKeep(orig: SelectorList, parent: SelectorList, flags: Flags) returns (r: SelectorList, flags': Flags)
    ensures r == ReplacedList(orig, parent)
    ensures flags' == Union(flags, if AnyParent(orig) then ListFlags(r) else NO_FLAGS)
    decreases orig, 2
  {
    var l;
    l, flags' := ReplaceOnSelectorList(orig, parent, flags);
    r := if l.Some? then l.value else orig;
  }

  method ReplaceOnSelectorList(orig: SelectorList, parent: SelectorList, flags: Flags)
    returns (r: Option<SelectorList>, flags': Flags)
    ensures (if r.Some? then r.value else orig) == ReplacedList(orig, parent)
    ensures flags' == Union(flags, if AnyParent(orig) then ListFlags(ReplacedList(orig, parent)) else NO_FLAGS)
    decreases orig, 1
  {
    if !AnyParent(orig) {
      assert orig == ReplacedList(orig, parent);
      return None, flags;
    }
    var result: SelectorList := [];
    for n := 0 to |orig|
      invariant |result| == n && forall i | 0 <= i < n :: result[i] == Replaced(orig[i], parent)
    {
      var s := ReplaceParentSelector(orig[n], parent);
      result := result + [s];
    }
    assert result == ReplacedList(orig, parent);
    r, flags' := Some(result), Union(flags, ListFlags(result));
  }

  method ReplaceOnRelativeSelectorList(orig: seq<RelativeSelector>, parent: SelectorList, flags: Flags)
    returns (result: seq<RelativeSelector>, flags': Flags)
    ensures result == ReplacedRelatives(orig, parent)
    ensures flags' == Union(flags, if AnyRelativeParent(orig) then RelativeFlags(result) else NO_FLAGS)
    decreases orig, 1
  {
    var any := false;
    result := [];
    for n := 0 to |orig|
      invariant |result| == n
      invariant forall i | 0 <= i < n :: result[i] == ReplacedRelative(orig[i], parent)
      invariant any <==> exists i | 0 <= i < n :: orig[i].selector.flags.hasParent
    {
      if !orig[n].selector.flags.hasParent {
        result := result + [orig[n]];
      } else {
        any := true;
        var rel := ReplaceOnRelativeSelector(orig[n], parent);
        result := result + [rel];
      }
    }
    assert result == ReplacedRelatives(orig, parent);
    flags' := if any then Union(flags, RelativeFlags(result)) else flags;
  }

  method ReplaceOnRelativeSelector(rel: RelativeSelector, parent: SelectorList) returns (r: RelativeSelector)
    ensures r == ReplacedRelative(rel, parent)
    decreases rel
  {
    var s := ReplaceParentSelector(rel.selector, parent);
    r := RelativeSelector(rel.hint, s);
  }

  // ----------------------------------------------------- the flag invariant

  /** Flags are what the builder computes from the components; an unparsable selector
      may claim a parent it cannot be asked for. */
  ghost predicate Tracked(s: Selector) {
    && (s.components == [Invalid] || s.flags == AllFlags(s.components))
    && forall i | 0 <= i < |s.components| :: TrackedComponent(s.components[i])
  }

  ghost predicate TrackedList(list: SelectorList) {
    forall i | 0 <= i < |list| :: Tracked(list[i])
  }

  ghost predicate TrackedComponent(x: Component) {
    match x
    case NthOf(_, list) => TrackedList(list)
    case Is(list) => TrackedList(list)
    case Where(list) => TrackedList(list)
    case Negation(list) => TrackedList(list)
    case Has(rs) => forall i | 0 <= i < |rs| :: Tracked(rs[i].selector)
    case _ => true
  }

  /** Does `&` occur, at any depth? */
  ghost predicate Mentions(s: seq<Component>) {
    exists i | 0 <= i < |s| :: MentionsIn(s[i])
  }

  ghost predicate MentionsList(list: SelectorList) {
    exists i | 0 <= i < |list| :: Mentions(list[i].components)
  }

  ghost predicate MentionsIn(x: Component) {
    match x
    case ParentSelector => true
    case NthOf(_, list) => MentionsList(list)
    case Is(list) => MentionsList(list)
    case Where(list) => MentionsList(list)
    case Negation(list) => MentionsList(list)
    case Has(rs) => MentionsInRelatives(rs)
    case _ => false
  }

  ghost predicate MentionsInRelatives(rs: seq<RelativeSelector>) {
    exists i | 0 <= i < |rs| :: MentionsInRelative(rs[i])
  }

  ghost predicate MentionsInRelative(r: RelativeSelector) {
    Mentions(r.selector.components)
  }

  lemma {:induction false} ListFlagsMembers(list: SelectorList)
    ensures ListFlags(list).hasParent <==> AnyParent(list)
    ensures ListFlags(list).hasScope <==> exists i | 0 <= i < |list| :: list[i].flags.hasScope
  {
    if list != [] {
      ListFlagsMembers(list[1..]);
      assert forall i | 1 <= i < |list| :: list[i] == list[1..][i - 1];
      assert forall i | 0 <= i < |list| - 1 :: list[1..][i] == list[i + 1];
    }
  }

  lemma {:induction false} RelativeFlagsMembers(rs: seq<RelativeSelector>)
    ensures RelativeFlags(rs).hasParent <==> AnyRelativeParent(rs)
    ensures RelativeFlags(rs).hasScope <==> exists i | 0 <= i < |rs| :: rs[i].selector.flags.hasScope
  {
    if rs != [] {
      RelativeFlagsMembers(rs[1..]);
      assert forall i | 1 <= i < |rs| :: rs[i] == rs[1..][i - 1];
      assert forall i | 0 <= i < |rs| - 1 :: rs[1..][i] == rs[i + 1];
    }
  }

  /** The parent flag misses no occurrence of `&`. */
  lemma {:induction false} FlagCovers(s: Selector)
    requires Tracked(s) && Mentions(s.components)
    ensures s.flags.hasParent
    decreases s
  {
    var i :| 0 <= i < |s.components| && MentionsIn(s.components[i]);
    var x := s.components[i];
    assert TrackedComponent(x);
    FlagCoversComponent(x);
    AllFlagsMembers(s.components);
    assert x in s.components;
  }

  lemma {:induction false} FlagCoversComponent(x: Component)
    requires TrackedComponent(x) && MentionsIn(x)
    ensures FlagsOf(x).hasParent
    decreases x
  {
    if x.Has? {
      var i :| 0 <= i < |x.relatives| && MentionsInRelative(x.relatives[i]);
      FlagCovers(x.relatives[i].selector);
      RelativeFlagsMembers(x.relatives);
    } else if !x.ParentSelector? {
      var list := NestedList(x);
      var i :| 0 <= i < |list| && Mentions(list[i].components);
      FlagCovers(list[i]);
      ListFlagsMembers(list);
    }
  }

  function NestedList(x: Component): SelectorList {
    match x
    case NthOf(_, list) => list
    case Is(list) => list
    case Where(list) => list
    case Negation(list) => list
    case _ => []
  }

  lemma {:induction false} FlagsOfConcat(a: seq<Component>, b: seq<Component>)
    ensures AllFlags(a + b) == Union(AllFlags(a), AllFlags(b))
  {
    if b == [] {
      assert a + b == a;
    } else {
      var most := b[..|b| - 1];
      FlagsOfConcat(a, most);
      assert (a + b)[..|a + b| - 1] == a + most;
    }
  }

  lemma TrackedConcat(a: seq<Component>, b: seq<Component>)
    requires forall x | x in a :: TrackedComponent(x)
    requires forall x | x in b :: TrackedComponent(x)
    ensures forall i | 0 <= i < |a + b| :: TrackedComponent((a + b)[i])
  {
    forall i | 0 <= i < |a + b|
      ensures TrackedComponent((a + b)[i])
    {
      var x := (a + b)[i];
      assert x in a || x in b;
    }
  }

  /** What is added on the left is tracked and has its own flags. */
  lemma ImplicitFlags(flags: Flags, r: ParseRelative)
    ensures var implicit := ImplicitAddition(flags, r);
            && (forall x | x in implicit :: TrackedComponent(x))
            && AllFlags(implicit) == if implicit == [] then NO_FLAGS else FlagsOf(implicit[1])
  {
    var implicit := ImplicitAddition(flags, r);
    if implicit != [] {
      assert implicit[..1] == [implicit[0]] && [implicit[0]][..0] == [];
      assert AllFlags([implicit[0]]) == NO_FLAGS;
    }
  }

  lemma MatchOrderIsTracked(p: seq<Component>)
    requires forall i | 0 <= i < |p| :: TrackedComponent(p[i])
    ensures AllFlags(MatchOrder(p)) == AllFlags(p)
    ensures forall i | 0 <= i < |p| :: TrackedComponent(MatchOrder(p)[i])
  {
    var m := MatchOrder(p);
    forall x: Component
      ensures x in m <==> x in p
    {
      MatchOrderMembers(p, x);
    }
    SameMembersSameFlags(m, p);
    forall i | 0 <= i < |m|
      ensures TrackedComponent(m[i])
    {
      assert m[i] in p;
    }
  }

  /** The builder establishes the invariant. */
  lemma BuiltIsTracked(p: seq<Component>, r: ParseRelative)
    requires forall i | 0 <= i < |p| :: TrackedComponent(p[i])
    ensures Tracked(Built(p, r))
  {
    var m, implicit := MatchOrder(p), ImplicitAddition(AllFlags(p), r);
    MatchOrderIsTracked(p);
    ImplicitFlags(AllFlags(p), r);
    FlagsOfConcat(m, implicit);
    TrackedConcat(m, implicit);
  }

  // ------------------------------------------------ what is replaced by what

  /** `r` is `s` with every `&` turned into `:is(p)`; flags aside, nothing else
      differs. */
  ghost predicate Substituted(s: seq<Component>, r: seq<Component>, p: SelectorList)
    decreases s, 0
  {
    && |r| == |s|
    && forall i {:trigger SubstitutedComponent(s[i], r[i], p)} | 0 <= i < |s| :: SubstitutedComponent(s[i], r[i], p)
  }

  ghost predicate SubstitutedList(list: SelectorList, r: SelectorList, p: SelectorList)
    decreases list, 0
  {
    && |r| == |list|
    && forall i {:trigger Substituted(list[i].components, r[i].components, p)} | 0 <= i < |list| ::
         Substituted(list[i].components, r[i].components, p)
  }

  ghost predicate SubstitutedRelatives(rs: seq<RelativeSelector>, r: seq<RelativeSelector>, p: SelectorList)
    decreases rs, 0
  {
    && |r| == |rs|
    && forall i {:trigger SubstitutedRelative(rs[i], r[i], p)} | 0 <= i < |rs| :: SubstitutedRelative(rs[i], r[i], p)
  }

  ghost predicate SubstitutedRelative(x: RelativeSelector, y: RelativeSelector, p: SelectorList)
    decreases x
  {
    y.hint == x.hint && Substituted(x.selector.components, y.selector.components, p)
  }

  ghost predicate SubstitutedComponent(x: Component, y: Component, p: SelectorList)
    decreases x, 1
  {
    match x
    case ParentSelector => y == Is(p)
    case NthOf(d, list) => y.NthOf? && y.ofData == d && SubstitutedList(list, y.selectors, p)
    case Is(list) => y.Is? && SubstitutedList(list, y.isList, p)
    case Where(list) => y.Where? && SubstitutedList(list, y.whereList, p)
    case Negation(list) => y.Negation? && SubstitutedList(list, y.notList, p)
    case Has(rs) => y.Has? && SubstitutedRelatives(rs, y.relatives, p)
    case _ => y == x
  }

  lemma {:induction false} NothingToSubstitute(s: seq<Component>, p: SelectorList)
    requires !Mentions(s)
    ensures Substituted(s, s, p)
    decreases s, 0
  {
    forall i | 0 <= i < |s|
      ensures SubstitutedComponent(s[i], s[i], p)
    {
      assert !MentionsIn(s[i]);
      NothingToSubstituteIn(s[i], p);
    }
  }

  lemma {:induction false} NothingToSubstituteIn(x: Component, p: SelectorList)
    requires !MentionsIn(x)
    ensures SubstitutedComponent(x, x, p)
    decreases x, 1
  {
    var list := NestedList(x);
    forall i | 0 <= i < |list|
      ensures Substituted(list[i].components, list[i].components, p)
    {
      NothingToSubstitute(list[i].components, p);
    }
    if x.Has? {
      forall i | 0 <= i < |x.relatives|
        ensures SubstitutedRelative(x.relatives[i], x.relatives[i], p)
      {
        assert !MentionsInRelative(x.relatives[i]);
        NothingToSubstitute(x.relatives[i].selector.components, p);
      }
    }
  }

  /** Skipping what the flags allow to skip still replaces every `&`. */
  lemma {:induction false} ReplacedSubstitutes(s: Selector, p: SelectorList)
    requires Tracked(s)
    ensures Substituted(s.components, Replaced(s, p).components, p)
    decreases s, 0
  {
    if s.flags.hasParent {
      forall i | 0 <= i < |s.components|
        ensures SubstitutedComponent(s.components[i], ReplacedComponent(s.components[i], p), p)
      {
        assert TrackedComponent(s.components[i]);
        ReplacedSubstitutesIn(s.components[i], p);
      }
    } else {
      if Mentions(s.components) {
        FlagCovers(s);
      }
      NothingToSubstitute(s.components, p);
    }
  }

  lemma {:induction false} ReplacedSubstitutesIn(x: Component, p: SelectorList)
    requires TrackedComponent(x)
    ensures SubstitutedComponent(x, ReplacedComponent(x, p), p)
    decreases x, 1
  {
    var list := NestedList(x);
    forall i | 0 <= i < |list|
      ensures Substituted(list[i].components, Replaced(list[i], p).components, p)
    {
      ReplacedSubstitutes(list[i], p);
    }
    if x.Has? {
      forall i | 0 <= i < |x.relatives|
        ensures SubstitutedRelative(x.relatives[i], ReplacedRelative(x.relatives[i], p), p)
      {
        ReplacedSubstitutes(x.relatives[i].selector, p);
      }
    }
  }

  // ------------------------------------------------------ meaning preserved

  ghost function Nested(c: Context, p: SelectorList): Context {
    c.(parent := Some(p))
  }

  lemma {:induction false} SameCompoundLen(s: seq<Component>, r: seq<Component>, p: SelectorList)
    requires Substituted(s, r, p)
    ensures CompoundLen(r) == CompoundLen(s)
    ensures var k := CompoundLen(s);
            k < |s| ==> r[k] == s[k] && Substituted(s[k + 1..], r[k + 1..], p)
  {
    var k := CompoundLen(s);
    forall i | 0 <= i < |s|
      ensures r[i].CombinatorItem? <==> s[i].CombinatorItem?
    {
      assert SubstitutedComponent(s[i], r[i], p);
    }
    CompoundLenUnique(r, k);
    if k < |s| {
      assert SubstitutedComponent(s[k], r[k], p);
      var u, v := s[k + 1..], r[k + 1..];
      forall i | 0 <= i < |u|
        ensures SubstitutedComponent(u[i], v[i], p)
      {
        assert SubstitutedComponent(s[k + 1 + i], r[k + 1 + i], p);
      }
    }
  }

  /** Replacing `&` gives the value that the original has when `&` is read as "matches
      some selector of `p`": in every mode, under every negation, inside `:has()`. */
  lemma {:induction false} SameSelVal(c: Context, p: SelectorList, s: seq<Component>, r: seq<Component>, e: nat)
    requires IsElement(c.tree, e) && c.parent.None? && Substituted(s, r, p)
    ensures SelVal(c, r, e) == SelVal(Nested(c, p), s, e)
    decreases s, e, 3
  {
    var k := CompoundLen(s);
    SameCompoundLen(s, r, p);
    SameCompoundVal(c, p, s, r, e);
    var m := CompoundVal(c, r, e);
    if k < |s| {
      SameCandidateVal(c, p, s[k + 1..], r[k + 1..], s[k].combinator, e);
      var v := CandidateVal(c, r[k + 1..], r[k].combinator, e);
      assert SelVal(c, r, e) == if m.False? then m else And(m, v);
    } else {
      assert SelVal(c, r, e) == m;
    }
  }

  lemma {:induction false} SameCandidateVal(c: Context, p: SelectorList, s: seq<Component>, r: seq<Component>,
                                            comb: Combinator, e: nat)
    requires IsElement(c.tree, e) && c.parent.None? && Substituted(s, r, p)
    ensures CandidateVal(c, r, comb, e) == CandidateVal(Nested(c, p), s, comb, e)
    decreases s, e, 4
  {
    var n := NextCandidate(c.tree, comb, e);
    if n.Some? {
      SameSelVal(c, p, s, r, n.value);
      SameCandidateVal(c, p, s, r, comb, n.value);
    }
  }

  lemma {:induction false} SameCompoundVal(c: Context, p: SelectorList, s: seq<Component>, r: seq<Component>, e: nat)
    requires IsElement(c.tree, e) && c.parent.None? && Substituted(s, r, p)
    ensures CompoundVal(c, r, e) == CompoundVal(Nested(c, p), s, e)
    decreases s, e, 2
  {
    SameCompoundLen(s, r, p);
    forall i | 0 <= i < CompoundLen(s)
      ensures SimpleVal(c, r[i], e) == SimpleVal(Nested(c, p), s[i], e)
    {
      assert SubstitutedComponent(s[i], r[i], p);
      SameSimpleVal(c, p, s[i], r[i], e);
    }
  }

  lemma {:induction false} SameListVal(c: Context, p: SelectorList, list: SelectorList, r: SelectorList, e: nat)
    requires IsElement(c.tree, e) && c.parent.None? && SubstitutedList(list, r, p)
    ensures ListVal(c, r, e) == ListVal(Nested(c, p), list, e)
    decreases list, e, 1
  {
    forall i | 0 <= i < |list|
      ensures SelVal(c, r[i].components, e) == SelVal(Nested(c, p), list[i].components, e)
    {
      assert Substituted(list[i].components, r[i].components, p);
      SameSelVal(c, p, list[i].components, r[i].components, e);
    }
  }

  lemma {:induction false} SameNestedListVal(c: Context, p: SelectorList, x: Component, y: Component, e: nat)
    requires IsElement(c.tree, e) && c.parent.None? && (x.Is? || x.Where? || x.Negation?)
    requires SubstitutedComponent(x, y, p)
    ensures SimpleVal(c, y, e) == SimpleVal(Nested(c, p), x, e)
    decreases x, 4
  {
    SameListVal(if x.Negation? then c.(inNegation := !c.inNegation) else c, p, NestedList(x), NestedList(y), e);
  }

  lemma {:induction false} SameSimpleVal(c: Context, p: SelectorList, x: Component, y: Component, e: nat)
    requires IsElement(c.tree, e) && c.parent.None? && SubstitutedComponent(x, y, p)
    ensures SimpleVal(c, y, e) == SimpleVal(Nested(c, p), x, e)
    decreases x, 5
  {
    if IsNth(x) {
      SameNthVal(c, p, x, y, e);
    } else if x.Is? || x.Where? || x.Negation? {
      SameNestedListVal(c, p, x, y, e);
    } else if x.Has? {
      SameAnyRelative(c, p, x.relatives, y.relatives, e);
    } else if x.ParentSelector? {
      assert Nested(c, p).(parent := None) == c;
    } else {
      OtherSimpleVal(c, p, x, e);
    }
  }

  lemma OtherSimpleVal(c: Context, p: SelectorList, x: Component, e: nat)
    requires IsElement(c.tree, e)
    requires IsLeaf(x) || x.Scope? || x.ImplicitScope? || x.RelativeSelectorAnchor? || x.CombinatorItem?
             || x.LinkPseudoClass?
    ensures SimpleVal(c, x, e) == SimpleVal(Nested(c, p), x, e)
  {
  }

  lemma {:induction false} SameAnyRelative(c: Context, p: SelectorList, rs: seq<RelativeSelector>,
                                           r: seq<RelativeSelector>, e: nat)
    requires IsElement(c.tree, e) && c.parent.None? && SubstitutedRelatives(rs, r, p)
    ensures AnyRelative(c, r, e) <==> AnyRelative(Nested(c, p), rs, e)
    decreases rs, e, 1
  {
    forall i, x: nat | 0 <= i < |rs| && IsElement(c.tree, x)
      ensures RelativeVal(c, r[i], e, x) == RelativeVal(Nested(c, p), rs[i], e, x)
    {
      assert SubstitutedRelative(rs[i], r[i], p);
      SameRelativeVal(c, p, rs[i], r[i], e, x);
    }
  }

  lemma {:induction false} SameRelativeVal(c: Context, p: SelectorList, x: RelativeSelector, y: RelativeSelector,
                                           anchor: nat, e: nat)
    requires IsElement(c.tree, e) && c.parent.None? && SubstitutedRelative(x, y, p)
    ensures RelativeVal(c, y, anchor, e) == RelativeVal(Nested(c, p), x, anchor, e)
    decreases x
  {
    SameSelVal(c.(anchor := Some(anchor)), p, x.selector.components, y.selector.components, e);
  }

  lemma {:induction false} SameCounts(c: Context, p: SelectorList, x: Component, y: Component, z: nat, e: nat)
    requires IsNth(x) && IsElement(c.tree, e) && IsElement(c.tree, z) && c.parent.None? && SubstitutedComponent(x, y, p)
    ensures IsNth(y) && DataOf(y) == DataOf(x)
    ensures Counts(c, y, z, e) <==> Counts(Nested(c, p), x, z, e)
    decreases x, 0
  {
    if x.NthOf? && !DataOf(x).ty.IsOfType() {
      SameListVal(c, p, x.selectors, y.selectors, z);
    }
  }

  lemma {:induction false} SameCount(c: Context, p: SelectorList, x: Component, y: Component, e: nat, lo: nat, hi: nat)
    requires IsNth(x) && IsElement(c.tree, e) && c.parent.None? && SubstitutedComponent(x, y, p)
    ensures IsNth(y)
    ensures CountSiblings(c, y, e, lo, hi) == CountSiblings(Nested(c, p), x, e, lo, hi)
    decreases x, 1, hi
  {
    if lo < hi {
      SameCount(c, p, x, y, e, lo, hi - 1);
      if Siblings(c.tree, hi - 1, e) {
        SameCounts(c, p, x, y, hi - 1, e);
      }
    }
  }

  lemma {:induction false} SameNthMatches(c: Context, p: SelectorList, x: Component, y: Component, e: nat)
    requires IsNth(x) && IsElement(c.tree, e) && c.parent.None? && SubstitutedComponent(x, y, p)
    ensures IsNth(y) && DataOf(y) == DataOf(x)
    ensures NthMatches(c, y, e) <==> NthMatches(Nested(c, p), x, e)
    decreases x, 3
  {
    SameCounts(c, p, x, y, e, e);
    SameIndex(c, p, x, y, false, e);
    SameIndex(c, p, x, y, true, e);
  }

  lemma {:induction false} SameIndex(c: Context, p: SelectorList, x: Component, y: Component, fromEnd: bool, e: nat)
    requires IsNth(x) && IsElement(c.tree, e) && c.parent.None? && SubstitutedComponent(x, y, p)
    ensures IsNth(y) && SiblingIndex(c, y, fromEnd, e) == SiblingIndex(Nested(c, p), x, fromEnd, e)
    decreases x, 2
  {
    SameCount(c, p, x, y, e, 0, e);
    SameCount(c, p, x, y, e, e + 1, |c.tree.nodes|);
  }

  lemma {:induction false} SameNthVal(c: Context, p: SelectorList, x: Component, y: Component, e: nat)
    requires IsNth(x) && IsElement(c.tree, e) && c.parent.None? && SubstitutedComponent(x, y, p)
    ensures IsNth(y) && NthVal(c, y, e) == NthVal(Nested(c, p), x, e)
    decreases x, 4
  {
    SameNthMatches(c, p, x, y, e);
    if x.NthOf? {
      SameListVal(c, p, x.selectors, y.selectors, e);
    }
  }

  // ---------------------------------------------------------- main results

  /** Nesting resolution keeps the meaning of every selector the builder produced. */
  lemma ReplacementPreservesMeaning(c: Context, p: SelectorList, s: Selector, e: nat)
    requires IsElement(c.tree, e) && c.parent.None? && Tracked(s)
    ensures SelVal(c, Replaced(s, p).components, e) == SelVal(Nested(c, p), s.components, e)
  {
    ReplacedSubstitutes(s, p);
    SameSelVal(c, p, s.components, Replaced(s, p).components, e);
  }

  lemma ListFlagsAfterReplacing(list: SelectorList, p: SelectorList)
    ensures ListFlags(ReplacedList(list, p))
            == Union(Flags(false, ListFlags(list).hasScope),
                     if AnyParent(list) then ListFlags(ReplacedList(list, p)) else NO_FLAGS)
  {
    var r := ReplacedList(list, p);
    ListFlagsMembers(list);
    ListFlagsMembers(r);
    assert forall i | 0 <= i < |list| :: r[i] == Replaced(list[i], p);
    assert !AnyParent(list) ==> r == list;
  }

  lemma ReplacedRelativeFlags(r: RelativeSelector, p: SelectorList)
    ensures r.selector.flags.hasScope ==> ReplacedRelative(r, p).selector.flags.hasScope
    ensures !r.selector.flags.hasParent ==> ReplacedRelative(r, p) == r
  {
  }

  lemma RelativeFlagsAfterReplacing(rs: seq<RelativeSelector>, p: SelectorList)
    ensures RelativeFlags(ReplacedRelatives(rs, p))
            == Union(Flags(false, RelativeFlags(rs).hasScope),
                     if AnyRelativeParent(rs) then RelativeFlags(ReplacedRelatives(rs, p)) else NO_FLAGS)
  {
    var r := ReplacedRelatives(rs, p);
    RelativeFlagsMembers(rs);
    RelativeFlagsMembers(r);
    forall i | 0 <= i < |rs|
      ensures rs[i].selector.flags.hasScope ==> r[i].selector.flags.hasScope
      ensures rs[i].selector.flags.hasParent || r[i] == rs[i]
    {
      assert r[i] == ReplacedRelative(rs[i], p);
      ReplacedRelativeFlags(rs[i], p);
    }
    if !AnyRelativeParent(rs) {
      assert r == rs;
    }
  }

  lemma FlagsAfterReplacing(x: Component, p: SelectorList)
    ensures FlagsOf(ReplacedComponent(x, p)) == Union(Flags(false, FlagsOf(x).hasScope), Inserted(x, p))
  {
    if x.Has? {
      RelativeFlagsAfterReplacing(x.relatives, p);
    } else {
      ListFlagsAfterReplacing(NestedList(x), p);
    }
  }

  lemma {:induction false} AllFlagsAfterReplacing(s: seq<Component>, p: SelectorList)
    ensures AllFlags(ReplacedComponents(s, p)) == Union(Flags(false, AllFlags(s).hasScope), InsertedFlags(s, p))
    decreases |s|
  {
    if s != [] {
      var n := |s| - 1;
      AllFlagsAfterReplacing(s[..n], p);
      FlagsAfterReplacing(s[n], p);
      assert ReplacedComponents(s, p)[..n] == ReplacedComponents(s[..n], p);
    }
  }

  /** Replacing keeps the flag invariant, so its result can be nested again. */
  lemma {:induction false} ReplacedIsTracked(s: Selector, p: SelectorList)
    requires Tracked(s) && TrackedList(p)
    ensures Tracked(Replaced(s, p))
    decreases s, 0
  {
    if s.flags.hasParent {
      var r := ReplacedComponents(s.components, p);
      forall i | 0 <= i < |r|
        ensures TrackedComponent(r[i])
      {
        assert TrackedComponent(s.components[i]);
        ReplacedComponentIsTracked(s.components[i], p);
      }
      AllFlagsAfterReplacing(s.components, p);
      if s.components == [Invalid] {
        assert r == [Invalid];
      }
    }
  }

  lemma {:induction false} ReplacedComponentIsTracked(x: Component, p: SelectorList)
    requires TrackedComponent(x) && TrackedList(p)
    ensures TrackedComponent(ReplacedComponent(x, p))
    decreases x, 1
  {
    var list := NestedList(x);
    forall i | 0 <= i < |list|
      ensures Tracked(ReplacedList(list, p)[i])
    {
      ReplacedIsTracked(list[i], p);
    }
    if x.Has? {
      forall i | 0 <= i < |x.relatives|
        ensures Tracked(ReplacedRelatives(x.relatives, p)[i].selector)
      {
        ReplacedIsTracked(x.relatives[i].selector, p);
      }
    }
  }

  /** Search hints stay right, so the engine accepts the replaced selector. */
  lemma {:induction false} SubstitutedIsWellFormed(s: seq<Component>, r: seq<Component>, p: SelectorList)
    requires Substituted(s, r, p) && WellFormed(s) && WellFormedList(p)
    ensures WellFormed(r)
    decreases s, 0
  {
    forall i | 0 <= i < |s|
      ensures WellFormedComponent(r[i])
    {
      assert SubstitutedComponent(s[i], r[i], p) && WellFormedComponent(s[i]);
      SubstitutedIsWellFormedIn(s[i], r[i], p);
    }
  }

  lemma {:induction false} SubstitutedIsWellFormedIn(x: Component, y: Component, p: SelectorList)
    requires SubstitutedComponent(x, y, p) && WellFormedComponent(x) && WellFormedList(p)
    ensures WellFormedComponent(y)
    decreases x, 1
  {
    if x.Has? {
      forall i | 0 <= i < |x.relatives|
        ensures WellFormedRelative(y.relatives[i])
      {
        assert SubstitutedRelative(x.relatives[i], y.relatives[i], p) && WellFormedRelative(x.relatives[i]);
        SubstitutedRelativeIsWellFormed(x.relatives[i], y.relatives[i], p);
      }
    } else if x.Is? || x.Where? || x.Negation? || x.NthOf? {
      var list, r := NestedList(x), NestedList(y);
      assert WellFormedList(list);
      forall i | 0 <= i < |list|
        ensures WellFormed(r[i].components)
      {
        SubstitutedIsWellFormed(list[i].components, r[i].components, p);
      }
    }
  }

  lemma {:induction false} SubstitutedRelativeIsWellFormed(x: RelativeSelector, y: RelativeSelector, p: SelectorList)
    requires SubstitutedRelative(x, y, p) && WellFormedRelative(x) && WellFormedList(p)
    ensures WellFormedRelative(y)
    decreases x
  {
    var s, r := x.selector.components, y.selector.components;
    SubstitutedIsWellFormed(s, r, p);
    forall i | 0 <= i < |s| && (s[i].CombinatorItem? || r[i].CombinatorItem? || s[i].RelativeSelectorAnchor?)
      ensures r[i] == s[i]
    {
      assert SubstitutedComponent(s[i], r[i], p);
    }
    var n := |s| - 2;
    assert HasDescendantCombinator(s[..n]) <==> HasDescendantCombinator(r[..n]) by {
      SameItems(s[..n], r[..n]);
    }
    assert HasSiblingCombinator(s[..n]) <==> HasSiblingCombinator(r[..n]) by {
      SameItems(s[..n], r[..n]);
    }
  }

  lemma SameItems(s: seq<Component>, r: seq<Component>)
    requires |r| == |s|
    requires forall i | 0 <= i < |s| && (s[i].CombinatorItem? || r[i].CombinatorItem?) :: r[i] == s[i]
    ensures HasDescendantCombinator(s) <==> HasDescendantCombinator(r)
    ensures HasSiblingCombinator(s) <==> HasSiblingCombinator(r)
  {
  }

  /** `&` is left over exactly when the parent list brings its own. */
  lemma {:induction false} WhatStaysNested(s: seq<Component>, r: seq<Component>, p: SelectorList)
    requires Substituted(s, r, p)
    ensures Mentions(r) <==> Mentions(s) && MentionsList(p)
    decreases s, 0
  {
    forall i | 0 <= i < |s|
      ensures MentionsIn(r[i]) <==> MentionsIn(s[i]) && MentionsList(p)
    {
      assert SubstitutedComponent(s[i], r[i], p);
      WhatStaysNestedIn(s[i], r[i], p);
    }
  }

  lemma {:induction false} WhatStaysNestedIn(x: Component, y: Component, p: SelectorList)
    requires SubstitutedComponent(x, y, p)
    ensures MentionsIn(y) <==> MentionsIn(x) && MentionsList(p)
    decreases x, 1
  {
    if x.Has? {
      WhatStaysInRelatives(x.relatives, y.relatives, p);
    } else if x.Is? || x.Where? || x.Negation? || x.NthOf? {
      WhatStaysInList(NestedList(x), NestedList(y), p);
    }
  }

  lemma {:induction false} WhatStaysInList(list: SelectorList, r: SelectorList, p: SelectorList)
    requires SubstitutedList(list, r, p)
    ensures MentionsList(r) <==> MentionsList(list) && MentionsList(p)
    decreases list, 0
  {
    forall i | 0 <= i < |list|
      ensures Mentions(r[i].components) <==> Mentions(list[i].components) && MentionsList(p)
    {
      WhatStaysNested(list[i].components, r[i].components, p);
    }
  }

  lemma {:induction false} WhatStaysInRelatives(rs: seq<RelativeSelector>, r: seq<RelativeSelector>, p: SelectorList)
    requires SubstitutedRelatives(rs, r, p)
    ensures MentionsInRelatives(r) <==> MentionsInRelatives(rs) && MentionsList(p)
    decreases rs, 0
  {
    forall i | 0 <= i < |rs|
      ensures MentionsInRelative(r[i]) <==> MentionsInRelative(rs[i]) && MentionsList(p)
    {
      assert SubstitutedRelative(rs[i], r[i], p);
      WhatStaysInRelative(rs[i], r[i], p);
    }
  }

  lemma {:induction false} WhatStaysInRelative(x: RelativeSelector, y: RelativeSelector, p: SelectorList)
    requires SubstitutedRelative(x, y, p)
    ensures MentionsInRelative(y) <==> MentionsInRelative(x) && MentionsList(p)
    decreases x
  {
    WhatStaysNested(x.selector.components, y.selector.components, p);
  }

  lemma ReplacementRemovesParent(s: Selector, p: SelectorList)
    requires Tracked(s)
    ensures Mentions(Replaced(s, p).components) <==> Mentions(s.components) && MentionsList(p)
  {
    ReplacedSubstitutes(s, p);
    WhatStaysNested(s.components, Replaced(s, p).components, p);
  }
}
