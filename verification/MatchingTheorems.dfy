/** One induction over selector and tree relates the engine's value to the meaning,
    in each of the modes. */
module MatchingTheorems {
  import opened Dom
  import opened KleeneLogic
  import opened Selectors
  import opened Semantics
  import opened MatchResults
  import opened Meaning

  /** What a value may say about the truth `b`: everything when styling, only
      settled answers in comparison, and in invalidation an upper bound, which is a
      lower bound under an odd number of negations. */
  ghost predicate Approximates(c: Context, val: Kleene, b: bool) {
    match c.mode
    case ForStyling => val == FromBool(b)
    case ForRevalidation => val == FromBool(b)
    case ForComparison => (val.True? ==> b) && (val.False? ==> !b)
    case ForInvalidation => !val.Unknown? && if c.inNegation then val.True? ==> b else b ==> val.True?
  }

  lemma {:induction false} CandidateWitness(c: Context, s: seq<Component>, comb: Combinator, e: nat) returns (y: nat)
    requires IsElement(c.tree, e) && !CandidateVal(c, s, comb, e).False?
    ensures IsElement(c.tree, y) && Related(c.tree, comb, y, e)
    ensures SelVal(c, s, y) == CandidateVal(c, s, comb, e)
  {
    var n := NextCandidate(c.tree, comb, e);
    NextCandidateIsClosest(c.tree, comb, e, e);
    y := n.value;
    if SelVal(c, s, y).False? {
      y := CandidateWitness(c, s, comb, n.value);
      if comb.Descendant? {
        assert Ancestors(c.tree, e) == [n.value] + Ancestors(c.tree, n.value);
      }
    }
  }

  ghost predicate Compatible(c: Context, rho: Option<Resolution>) {
    c.mode.Computes() <==> rho.None?
  }

  lemma {:induction false} SelApproximates(c: Context, rho: Option<Resolution>, s: seq<Component>, e: nat)
    requires IsElement(c.tree, e) && Compatible(c, rho)
    ensures Approximates(c, SelVal(c, s, e), Sat(EnvOf(c), rho, s, e))
    decreases Rank(c), s, 2
  {
    CompoundApproximates(c, rho, s, e);
    var k := CompoundLen(s);
    if k < |s| {
      CandidatesApproximate(c, rho, s[k + 1..], s[k].combinator, e);
    }
  }

  lemma {:induction false} CandidatesApproximate(c: Context, rho: Option<Resolution>, s: seq<Component>,
                                                 comb: Combinator, e: nat)
    requires IsElement(c.tree, e) && Compatible(c, rho)
    ensures Approximates(c, CandidateVal(c, s, comb, e),
                         exists y: nat :: Related(c.tree, comb, y, e) && SatElement(EnvOf(c), rho, s, y))
    decreases Rank(c), s, 3
  {
    CandidateValFails(c, s, comb, e);
    forall y: nat | IsElement(c.tree, y)
      ensures Approximates(c, SelVal(c, s, y), SatElement(EnvOf(c), rho, s, y))
    {
      SelApproximates(c, rho, s, y);
    }
    forall y: nat | Related(c.tree, comb, y, e)
      ensures IsElement(c.tree, y)
    {
      RelatedIsElement(c.tree, comb, y, e);
    }
    if !CandidateVal(c, s, comb, e).False? {
      var y := CandidateWitness(c, s, comb, e);
    }
  }

  lemma {:induction false} CompoundApproximates(c: Context, rho: Option<Resolution>, s: seq<Component>, e: nat)
    requires IsElement(c.tree, e) && Compatible(c, rho)
    ensures Approximates(c, CompoundVal(c, s, e), SatCompound(EnvOf(c), rho, s, e))
    decreases Rank(c), s, 1
  {
    forall i | 0 <= i < CompoundLen(s)
      ensures Approximates(c, SimpleVal(c, s[i], e), SatSimple(EnvOf(c), rho, s[i], e))
    {
      SimpleApproximates(c, rho, s[i], e);
    }
  }

  lemma {:induction false} ListApproximates(c: Context, rho: Option<Resolution>, list: SelectorList, e: nat)
    requires IsElement(c.tree, e) && Compatible(c, rho)
    ensures Approximates(c, ListVal(c, list, e), SatList(EnvOf(c), rho, list, e))
    decreases Rank(c), list, 1
  {
    forall i | 0 <= i < |list|
      ensures Approximates(c, SelVal(c, list[i].components, e), Sat(EnvOf(c), rho, list[i].components, e))
    {
      SelApproximates(c, rho, list[i].components, e);
    }
  }

  lemma {:induction false} SimpleApproximates(c: Context, rho: Option<Resolution>, x: Component, e: nat)
    requires IsElement(c.tree, e) && Compatible(c, rho)
    ensures Approximates(c, SimpleVal(c, x, e), SatSimple(EnvOf(c), rho, x, e))
    decreases Rank(c), x, 5
  {
    if IsNth(x) {
      NthApproximates(c, rho, x, e);
    } else if x.Has? {
      if c.mode.Computes() && c.anchor.None? {
        HasApproximates(c, x.relatives, e);
      }
    } else if x.Is? || x.Where? || x.Negation? {
      NestedListApproximates(c, rho, x, e);
    } else if x.ParentSelector? {
      if c.parent.Some? {
        ListApproximates(c.(parent := None), rho, c.parent.value, e);
      }
    } else {
      OtherApproximates(c, rho, x, e);
    }
  }

  lemma OtherApproximates(c: Context, rho: Option<Resolution>, x: Component, e: nat)
    requires IsElement(c.tree, e) && Compatible(c, rho)
    requires IsLeaf(x) || x.Scope? || x.ImplicitScope? || x.RelativeSelectorAnchor? || x.CombinatorItem?
             || x.LinkPseudoClass?
    ensures Approximates(c, SimpleVal(c, x, e), SatSimple(EnvOf(c), rho, x, e))
  {
    if x.Scope? || x.ImplicitScope? {
      ScopeApproximates(c, rho, x, e);
    }
  }

  lemma ScopeApproximates(c: Context, rho: Option<Resolution>, x: Component, e: nat)
    requires IsElement(c.tree, e) && Compatible(c, rho) && (x.Scope? || x.ImplicitScope?)
    ensures Approximates(c, SimpleVal(c, x, e), SatSimple(EnvOf(c), rho, x, e))
  {
    assert c.mode.ForStyling? ==> LeafTruth(EnvOf(c), rho, x, e) == IsScope(c, e);
    assert c.mode.ForRevalidation? ==> LeafTruth(EnvOf(c), rho, x, e) == !c.inNegation;
  }

  lemma {:induction false} NestedListApproximates(c: Context, rho: Option<Resolution>, x: Component, e: nat)
    requires IsElement(c.tree, e) && Compatible(c, rho) && (x.Is? || x.Where? || x.Negation?)
    ensures Approximates(c, SimpleVal(c, x, e), SatSimple(EnvOf(c), rho, x, e))
    decreases Rank(c), x, 4
  {
    if x.Negation? {
      var d := c.(inNegation := !c.inNegation);
      assert EnvOf(d) == EnvOf(c).Negated();
      ListApproximates(d, rho, x.notList, e);
    } else {
      ListApproximates(c, rho, if x.Is? then x.isList else x.whereList, e);
    }
  }

  lemma {:induction false} HasApproximates(c: Context, rs: seq<RelativeSelector>, e: nat)
    requires IsElement(c.tree, e) && c.mode.Computes()
    ensures AnyRelative(c, rs, e) <==> LeafTruth(EnvOf(c), None, Has(rs), e)
    decreases Rank(c), rs, 1
  {
    forall i, y: nat | 0 <= i < |rs| && IsElement(c.tree, y)
      ensures !RelativeVal(c, rs[i], e, y).False? <==> SatRelative(EnvOf(c), None, rs[i], e, y)
    {
      RelativeApproximates(c, rs[i], e, y);
    }
  }

  lemma {:induction false} RelativeApproximates(c: Context, r: RelativeSelector, e: nat, y: nat)
    requires IsElement(c.tree, e) && IsElement(c.tree, y) && c.mode.Computes()
    ensures RelativeVal(c, r, e, y) == FromBool(SatRelative(EnvOf(c), None, r, e, y))
    decreases Rank(c), r
  {
    SelApproximates(c.(anchor := Some(e)), None, r.selector.components, y);
  }

  lemma {:induction false} NthApproximates(c: Context, rho: Option<Resolution>, x: Component, e: nat)
    requires IsNth(x) && IsElement(c.tree, e) && Compatible(c, rho)
    ensures Approximates(c, NthVal(c, x, e), SatSimple(EnvOf(c), rho, x, e))
    decreases Rank(c), x, 4
  {
    if ListOf(x) != [] {
      ListApproximates(c, rho, x.selectors, e);
    }
    if c.mode.Computes() {
      NthIsExact(c, x, e);
    }
  }

  lemma {:induction false} NthIsExact(c: Context, x: Component, e: nat)
    requires IsNth(x) && IsElement(c.tree, e) && c.mode.Computes()
    ensures LeafTruth(EnvOf(c), None, x, e) == OpenLeaf(EnvOf(c), None, x, e) == NthMatches(c, x, e)
    decreases Rank(c), x, 3, 1
  {
    IndexIsCardinality(c, x, false, e);
    IndexIsCardinality(c, x, true, e);
  }

  lemma {:induction false} IndexIsCardinality(c: Context, x: Component, fromEnd: bool, e: nat)
    requires IsNth(x) && IsElement(c.tree, e) && c.mode.Computes()
    ensures SiblingIndex(c, x, fromEnd, e) == 1 + |CountedSiblings(EnvOf(c), None, x, fromEnd, e)|
    decreases Rank(c), x, 3, 0
  {
    forall y: nat | Siblings(c.tree, y, e)
      ensures Counts(c, x, y, e) <==> SatCounts(EnvOf(c), None, x, y, e)
    {
      CountsIsExact(c, x, y, e);
    }
    var p := CountedBy(c, x, e);
    var lo, hi := if fromEnd then e + 1 else 0, if fromEnd then |c.tree.nodes| else e;
    CountIsFilter(c, x, e, lo, hi);
    FilterIsCount(p, lo, hi);
    assert CountedSiblings(EnvOf(c), None, x, fromEnd, e) == Filter(p, lo, hi);
  }

  // ---------------------------------------------------- nth, type by type

  /** Siblings with the same name. */
  ghost predicate Kin(t: Tree, y: nat, e: nat) {
    && Siblings(t, y, e)
    && Data(t, y).localName == Data(t, e).localName && Data(t, y).ns == Data(t, e).ns
  }

  ghost predicate Chosen(c: Context, list: SelectorList, y: nat)
    requires IsElement(c.tree, y)
  {
    list == [] || !ListVal(c, list, y).False?
  }

  ghost function EarlierKin(t: Tree, e: nat): set<nat> {
    set y: nat | y < |t.nodes| && Kin(t, y, e) && y < e
  }

  ghost function LaterKin(t: Tree, e: nat): set<nat> {
    set y: nat | y < |t.nodes| && Kin(t, y, e) && e < y
  }

  ghost function EarlierChosen(c: Context, list: SelectorList, e: nat): set<nat> {
    set y: nat | y < |c.tree.nodes| && Siblings(c.tree, y, e) && y < e && Chosen(c, list, y)
  }

  ghost function LaterChosen(c: Context, list: SelectorList, e: nat): set<nat> {
    set y: nat | y < |c.tree.nodes| && Siblings(c.tree, y, e) && e < y && Chosen(c, list, y)
  }

  /** What the six kinds ask of an element. */
  ghost predicate NthAsks(c: Context, d: NthData, list: SelectorList, e: nat) {
    match d.ty
    case OfChild => MatchesIndex(d.a, d.b, 1 + |EarlierChosen(c, list, e)|)
    case LastChild => MatchesIndex(d.a, d.b, 1 + |LaterChosen(c, list, e)|)
    case OnlyChild => NoOtherChosen(c, list, e)
    case OfType => MatchesIndex(d.a, d.b, 1 + |EarlierKin(c.tree, e)|)
    case LastOfType => MatchesIndex(d.a, d.b, 1 + |LaterKin(c.tree, e)|)
    case OnlyOfType => NoOtherKin(c.tree, e)
  }

  ghost predicate NoOtherChosen(c: Context, list: SelectorList, e: nat) {
    forall y: nat | Siblings(c.tree, y, e) && Chosen(c, list, y) :: y == e
  }

  ghost predicate NoOtherKin(t: Tree, e: nat) {
    forall y: nat | Kin(t, y, e) :: y == e
  }

  /** Where nth selectors are computed: the element is chosen by the list, if there is one,
      and stands where the kind says. */
  lemma NthMeans(c: Context, x: Component, e: nat)
    requires IsNth(x) && IsElement(c.tree, e) && c.mode.Computes()
    ensures var d, list := if x.Nth? then x.data else x.ofData, if x.Nth? then [] else x.selectors;
            SimpleVal(c, x, e)
            == FromBool(!Data(c.tree, e).ignoresNth && Chosen(c, list, e) && NthAsks(c, d, list, e))
  {
    NthAsksTheSame(c, x, e);
  }

  lemma NthAsksTheSame(c: Context, x: Component, e: nat)
    requires IsNth(x) && IsElement(c.tree, e)
    ensures NthMatches(c, x, e) <==> NthAsks(c, DataOf(x), ListOf(x), e)
  {
    IndexOneSide(c, x, false, e);
    IndexOneSide(c, x, true, e);
    if DataOf(x).ty.OnlyChild? {
      OnlyChildMeansNoOther(c, ListOf(x), e);
    } else if DataOf(x).ty.OnlyOfType? {
      OnlyOfTypeMeansNoOther(c.tree, e);
    }
  }

  /** The siblings that count on one side. */
  ghost function OneSide(c: Context, x: Component, fromEnd: bool, e: nat): set<nat>
    requires IsNth(x)
  {
    match (DataOf(x).ty, fromEnd)
    case (OfType, false) => EarlierKin(c.tree, e)
    case (LastOfType, false) => EarlierKin(c.tree, e)
    case (OnlyOfType, false) => EarlierKin(c.tree, e)
    case (OfType, true) => LaterKin(c.tree, e)
    case (LastOfType, true) => LaterKin(c.tree, e)
    case (OnlyOfType, true) => LaterKin(c.tree, e)
    case (_, false) => EarlierChosen(c, ListOf(x), e)
    case (_, true) => LaterChosen(c, ListOf(x), e)
  }

  lemma IndexOneSide(c: Context, x: Component, fromEnd: bool, e: nat)
    requires IsNth(x) && IsElement(c.tree, e)
    ensures SiblingIndex(c, x, fromEnd, e) == 1 + |OneSide(c, x, fromEnd, e)|
  {
    var p := CountedBy(c, x, e);
    var lo, hi := if fromEnd then e + 1 else 0, if fromEnd then |c.tree.nodes| else e;
    CountIsFilter(c, x, e, lo, hi);
    FilterIsCount(p, lo, hi);
    forall y: nat
      ensures y in OneSide(c, x, fromEnd, e) <==> lo <= y < hi && p(y)
    {
      CountedOnOneSide(c, x, fromEnd, e, y);
    }
    assert OneSide(c, x, fromEnd, e) == Filter(p, lo, hi);
  }

  lemma CountedOnOneSide(c: Context, x: Component, fromEnd: bool, e: nat, y: nat)
    requires IsNth(x) && IsElement(c.tree, e)
    ensures y in OneSide(c, x, fromEnd, e)
            <==> Siblings(c.tree, y, e) && Counts(c, x, y, e) && if fromEnd then e < y else y < e
  {
  }

  lemma OnlyChildMeansNoOther(c: Context, list: SelectorList, e: nat)
    requires IsElement(c.tree, e)
    ensures |EarlierChosen(c, list, e)| == 0 == |LaterChosen(c, list, e)| <==> NoOtherChosen(c, list, e)
  {
    var before, after := EarlierChosen(c, list, e), LaterChosen(c, list, e);
    assert |before| == 0 <==> before == {};
    assert |after| == 0 <==> after == {};
    assert forall y: nat | Siblings(c.tree, y, e) && Chosen(c, list, y) && y != e :: y in before || y in after;
  }

  lemma OnlyOfTypeMeansNoOther(t: Tree, e: nat)
    requires IsElement(t, e)
    ensures |EarlierKin(t, e)| == 0 == |LaterKin(t, e)| <==> NoOtherKin(t, e)
  {
    var before, after := EarlierKin(t, e), LaterKin(t, e);
    assert |before| == 0 <==> before == {};
    assert |after| == 0 <==> after == {};
    assert forall y: nat | Kin(t, y, e) && y != e :: y in before || y in after;
  }

  lemma {:induction false} CountsIsExact(c: Context, x: Component, y: nat, e: nat)
    requires IsNth(x) && IsElement(c.tree, e) && c.mode.Computes() && Siblings(c.tree, y, e)
    ensures Counts(c, x, y, e) <==> SatCounts(EnvOf(c), None, x, y, e)
    decreases Rank(c), x, 2
  {
    if !DataOf(x).ty.IsOfType() && ListOf(x) != [] {
      ListApproximates(c, None, x.selectors, y);
    }
  }

  ghost function CountedBy(c: Context, x: Component, e: nat): nat -> bool
    requires IsNth(x) && IsElement(c.tree, e)
  {
    (y: nat) => Siblings(c.tree, y, e) && Counts(c, x, y, e)
  }

  ghost function Filter(p: nat -> bool, lo: nat, hi: nat): set<nat> {
    set y: nat | lo <= y < hi && p(y)
  }

  ghost function FilterCount(p: nat -> bool, lo: nat, hi: nat): nat
    decreases hi
  {
    if hi <= lo then 0 else FilterCount(p, lo, hi - 1) + if p(hi - 1) then 1 else 0
  }

  lemma {:induction false} FilterIsCount(p: nat -> bool, lo: nat, hi: nat)
    ensures |Filter(p, lo, hi)| == FilterCount(p, lo, hi)
    decreases hi
  {
    if hi <= lo {
      assert Filter(p, lo, hi) == {};
    } else {
      var before, last := Filter(p, lo, hi - 1), if p(hi - 1) then {hi - 1} else {};
      FilterIsCount(p, lo, hi - 1);
      FilterSplit(p, lo, hi, before, last);
    }
  }

  lemma FilterSplit(p: nat -> bool, lo: nat, hi: nat, before: set<nat>, last: set<nat>)
    requires lo < hi && before == Filter(p, lo, hi - 1) && last == if p(hi - 1) then {hi - 1} else {}
    ensures |Filter(p, lo, hi)| == |before| + |last|
  {
    assert Filter(p, lo, hi) == before + last;
    assert before !! last;
  }

  lemma {:induction false} CountIsFilter(c: Context, x: Component, e: nat, lo: nat, hi: nat)
    requires IsNth(x) && IsElement(c.tree, e)
    ensures CountSiblings(c, x, e, lo, hi) == FilterCount(CountedBy(c, x, e), lo, hi)
    decreases hi
  {
    if lo < hi {
      CountIsFilter(c, x, e, lo, hi - 1);
    }
  }

  // ---------------------------------------------------------- main theorems

  /** Styling: the engine answers what the selector means. */
  lemma StylingIsExact(c: Context, s: seq<Component>, e: nat)
    requires IsElement(c.tree, e) && c.mode.ForStyling?
    ensures SelVal(c, s, e) == FromBool(Sat(EnvOf(c), None, s, e))
  {
    SelApproximates(c, None, s, e);
  }

  /** Revalidation: the same, with `:scope` read as true outside negations. */
  lemma RevalidationIsExact(c: Context, s: seq<Component>, e: nat)
    requires IsElement(c.tree, e) && c.mode.ForRevalidation?
    ensures SelVal(c, s, e) == FromBool(Sat(EnvOf(c), None, s, e))
  {
    SelApproximates(c, None, s, e);
  }

  /** Comparison: a settled answer holds however the open leaves turn out. */
  lemma ComparisonIsSound(c: Context, s: seq<Component>, e: nat, rho: Resolution)
    requires IsElement(c.tree, e) && c.mode.ForComparison?
    ensures SelVal(c, s, e).True? ==> Sat(EnvOf(c), Some(rho), s, e)
    ensures SelVal(c, s, e).False? ==> !Sat(EnvOf(c), Some(rho), s, e)
  {
    SelApproximates(c, Some(rho), s, e);
  }

  /** Invalidation: outside negations the answer is an upper bound however the open
      leaves turn out, under an odd number of them a lower one, and it is never unknown. */
  lemma InvalidationBoundsByPolarity(c: Context, s: seq<Component>, e: nat, rho: Resolution)
    requires IsElement(c.tree, e) && c.mode.ForInvalidation?
    ensures !c.inNegation && Sat(EnvOf(c), Some(rho), s, e) ==> SelVal(c, s, e).True?
    ensures c.inNegation && SelVal(c, s, e).True? ==> Sat(EnvOf(c), Some(rho), s, e)
    ensures !SelVal(c, s, e).Unknown?
  {
    SelApproximates(c, Some(rho), s, e);
  }

  // ------------------------------------ the real leaves are one resolution

  ghost function RealLeaves(v: Env): Resolution {
    (x: Component, e: nat) =>
      IsElement(v.tree, e) && (x.Scope? || x.ImplicitScope? || x.Has? || IsNth(x)) && LeafTruth(v, None, x, e)
  }

  lemma {:induction false} RealSel(v: Env, s: seq<Component>, e: nat)
    requires IsElement(v.tree, e) && v.parent.None? && v.open.None?
    ensures Sat(v, None, s, e) == Sat(v, Some(RealLeaves(v)), s, e)
    decreases s, 1
  {
    var k := CompoundLen(s);
    forall i | 0 <= i < k
      ensures SatSimple(v, None, s[i], e) == SatSimple(v, Some(RealLeaves(v)), s[i], e)
    {
      RealSimple(v, s[i], e);
    }
    if k < |s| {
      forall y: nat | Related(v.tree, s[k].combinator, y, e)
        ensures SatElement(v, None, s[k + 1..], y) == SatElement(v, Some(RealLeaves(v)), s[k + 1..], y)
      {
        RelatedIsElement(v.tree, s[k].combinator, y, e);
        RealSel(v, s[k + 1..], y);
      }
    }
  }

  lemma {:induction false} RealList(v: Env, list: SelectorList, e: nat)
    requires IsElement(v.tree, e) && v.parent.None? && v.open.None?
    ensures SatList(v, None, list, e) == SatList(v, Some(RealLeaves(v)), list, e)
    decreases list, 0
  {
    forall i | 0 <= i < |list|
      ensures Sat(v, None, list[i].components, e) == Sat(v, Some(RealLeaves(v)), list[i].components, e)
    {
      RealSel(v, list[i].components, e);
    }
  }

  lemma {:induction false} RealSimple(v: Env, x: Component, e: nat)
    requires IsElement(v.tree, e) && v.parent.None? && v.open.None?
    ensures SatSimple(v, None, x, e) == SatSimple(v, Some(RealLeaves(v)), x, e)
    decreases x, 0
  {
    match x {
      case NthOf(_, list) => RealList(v, list, e);
      case Is(list) => RealList(v, list, e);
      case Where(list) => RealList(v, list, e);
      case Negation(list) => RealList(v, list, e);
      case _ =>
    }
  }

  /** A settled answer of the comparison pass is the answer styling would give. */
  lemma ComparisonAgreesWithStyling(c: Context, s: seq<Component>, e: nat)
    requires IsElement(c.tree, e) && c.mode.ForComparison? && c.parent.None?
    ensures !SelVal(c, s, e).Unknown? ==>
              SelVal(c, s, e) == SelVal(c.(mode := ForStyling, inNegation := false), s, e)
  {
    var v := EnvOf(c);
    ComparisonIsSound(c, s, e, RealLeaves(v));
    RealSel(v, s, e);
    StylingIsExact(c.(mode := ForStyling, inNegation := false), s, e);
  }

  /** Invalidation never misses an element that styling would match. */
  lemma InvalidationCoversStyling(c: Context, s: seq<Component>, e: nat)
    requires IsElement(c.tree, e) && c.mode.ForInvalidation? && !c.inNegation && c.parent.None?
    ensures SelVal(c.(mode := ForStyling), s, e).True? ==> SelVal(c, s, e).True?
  {
    var v := EnvOf(c);
    InvalidationBoundsByPolarity(c, s, e, RealLeaves(v));
    RealSel(v, s, e);
    StylingIsExact(c.(mode := ForStyling), s, e);
  }

  // ------------------------------------------ matching as one assignment

  /** `f` gives every compound an element that satisfies it, and the elements stand
      in the relations the combinators name. */
  ghost predicate IsAssignment(v: Env, s: seq<Component>, f: seq<nat>) {
    AssignsAll(v, Compounds(s), Combinators(s), f)
  }

  ghost predicate AssignsAll(v: Env, compounds: seq<seq<Component>>, combinators: seq<Combinator>, f: seq<nat>) {
    |combinators| + 1 == |f| && AllSatisfy(v, compounds, f) && AllRelated(v, combinators, f)
  }

  ghost predicate AllSatisfy(v: Env, compounds: seq<seq<Component>>, f: seq<nat>) {
    |f| == |compounds| && forall i | 0 <= i < |f| :: IsElement(v.tree, f[i]) && SatCompound(v, None, compounds[i], f[i])
  }

  ghost predicate AllRelated(v: Env, combinators: seq<Combinator>, f: seq<nat>) {
    && (forall i | 0 <= i < |f| :: IsElement(v.tree, f[i]))
    && |f| <= |combinators| + 1
    && forall i | 0 <= i < |f| - 1 :: Related(v.tree, combinators[i], f[i + 1], f[i])
  }

  lemma AllSatisfyRest(v: Env, compounds: seq<seq<Component>>, f: seq<nat>, compound: seq<Component>, g: seq<nat>)
    requires AllSatisfy(v, [compound] + compounds, f) && g == f[1..]
    ensures AllSatisfy(v, compounds, g)
  {
    var all := [compound] + compounds;
    forall i | 0 <= i < |g|
      ensures IsElement(v.tree, g[i]) && SatCompound(v, None, compounds[i], g[i])
    {
      assert all[i + 1] == compounds[i] && g[i] == f[i + 1];
    }
  }

  lemma AllRelatedRest(v: Env, combinators: seq<Combinator>, f: seq<nat>, comb: Combinator, g: seq<nat>)
    requires AllRelated(v, [comb] + combinators, f) && f != [] && g == f[1..]
    ensures AllRelated(v, combinators, g)
  {
    var between := [comb] + combinators;
    forall i | 0 <= i < |g|
      ensures IsElement(v.tree, g[i])
    {
      assert g[i] == f[i + 1];
    }
    forall i | 0 <= i < |g| - 1
      ensures Related(v.tree, combinators[i], g[i + 1], g[i])
    {
      assert between[i + 1] == combinators[i] && g[i] == f[i + 1] && g[i + 1] == f[i + 2];
    }
  }

  lemma AssignOneLess(v: Env, compounds: seq<seq<Component>>, combinators: seq<Combinator>, f: seq<nat>,
                      compound: seq<Component>, comb: Combinator)
    requires AssignsAll(v, [compound] + compounds, [comb] + combinators, f) && compounds != []
    ensures AssignsAll(v, compounds, combinators, f[1..])
  {
    AllSatisfyRest(v, compounds, f, compound, f[1..]);
    AllRelatedRest(v, combinators, f, comb, f[1..]);
  }

  lemma AssignFirst(v: Env, compounds: seq<seq<Component>>, combinators: seq<Combinator>, f: seq<nat>,
                    compound: seq<Component>, comb: Combinator)
    requires AssignsAll(v, [compound] + compounds, [comb] + combinators, f) && compounds != []
    ensures IsElement(v.tree, f[0]) && SatCompound(v, None, compound, f[0]) && Related(v.tree, comb, f[1], f[0])
  {
    var all, between := [compound] + compounds, [comb] + combinators;
    assert all[0] == compound && between[0] == comb;
  }

  lemma AssignOneMore(v: Env, compounds: seq<seq<Component>>, combinators: seq<Combinator>, f: seq<nat>,
                      compound: seq<Component>, comb: Combinator, e: nat,
                      compounds': seq<seq<Component>>, combinators': seq<Combinator>)
    requires IsElement(v.tree, e) && SatCompound(v, None, compound, e)
    requires AssignsAll(v, compounds, combinators, f) && Related(v.tree, comb, f[0], e)
    requires compounds' == [compound] + compounds && combinators' == [comb] + combinators
    ensures AssignsAll(v, compounds', combinators', [e] + f)
  {
  }

  lemma CompoundAlone(v: Env, s: seq<Component>, e: nat)
    requires IsElement(v.tree, e)
    ensures SatCompound(v, None, s[..CompoundLen(s)], e) == SatCompound(v, None, s, e)
  {
    var k := CompoundLen(s);
    CompoundLenUnique(s[..k], k);
    assert forall i | 0 <= i < k :: s[..k][i] == s[i];
  }

  lemma AssignmentShrinks(v: Env, s: seq<Component>, k: nat, rest: seq<Component>, f: seq<nat>)
    requires k == CompoundLen(s) < |s| && rest == s[k + 1..]
    requires IsAssignment(v, s, f)
    ensures IsAssignment(v, rest, f[1..])
    ensures |f| > 1 && IsElement(v.tree, f[0]) && SatCompound(v, None, s[..k], f[0])
    ensures Related(v.tree, s[k].combinator, f[1], f[0])
  {
    var compound, comb := s[..k], s[k].combinator;
    var compounds, between, compounds', between' := Compounds(rest), Combinators(rest), Compounds(s), Combinators(s);
    assert compounds' == [compound] + compounds && between' == [comb] + between by {
      CompoundsStep(s, k, compound, rest);
      CombinatorsStep(s, k, comb, rest);
    }
    AssignOneLess(v, compounds, between, f, compound, comb);
    AssignFirst(v, compounds, between, f, compound, comb);
  }

  /** The first compound and a candidate for the rest make a match. */
  lemma SatFromParts(v: Env, s: seq<Component>, k: nat, rest: seq<Component>, e: nat, y: nat)
    requires k == CompoundLen(s) < |s| && rest == s[k + 1..] && IsElement(v.tree, e) && IsElement(v.tree, y)
    requires SatCompound(v, None, s, e) && Related(v.tree, s[k].combinator, y, e) && Sat(v, None, rest, y)
    ensures Sat(v, None, s, e)
  {
    assert SatElement(v, None, rest, y);
  }

  lemma {:induction false} AssignmentSuffices(v: Env, s: seq<Component>, f: seq<nat>)
    requires IsAssignment(v, s, f)
    ensures |f| > 0 && IsElement(v.tree, f[0]) && Sat(v, None, s, f[0])
    decreases |s|
  {
    var k := CompoundLen(s);
    if k < |s| {
      var rest, g := s[k + 1..], f[1..];
      AssignmentShrinks(v, s, k, rest, f);
      AssignmentSuffices(v, rest, g);
      CompoundAlone(v, s, f[0]);
      SatFromParts(v, s, k, rest, f[0], f[1]);
    } else {
      LoneCompound(v, s, f);
    }
  }

  lemma LoneCompound(v: Env, s: seq<Component>, f: seq<nat>)
    requires CompoundLen(s) == |s| && IsAssignment(v, s, f)
    ensures |f| > 0 && IsElement(v.tree, f[0]) && Sat(v, None, s, f[0])
  {
    assert Compounds(s)[0] == s[..|s|] == s;
  }

  lemma AssignmentExtends(v: Env, s: seq<Component>, k: nat, rest: seq<Component>, e: nat, g: seq<nat>)
    requires k == CompoundLen(s) < |s| && rest == s[k + 1..]
    requires IsElement(v.tree, e) && SatCompound(v, None, s[..k], e)
    requires IsAssignment(v, rest, g)
    requires Related(v.tree, s[k].combinator, g[0], e)
    ensures IsAssignment(v, s, [e] + g)
  {
    var compound, comb := s[..k], s[k].combinator;
    var compounds, between, compounds', between' := Compounds(rest), Combinators(rest), Compounds(s), Combinators(s);
    assert compounds' == [compound] + compounds && between' == [comb] + between by {
      CompoundsStep(s, k, compound, rest);
      CombinatorsStep(s, k, comb, rest);
    }
    AssignOneMore(v, compounds, between, g, compound, comb, e, compounds', between');
  }

  lemma {:induction false} AssignmentExists(v: Env, s: seq<Component>, e: nat) returns (f: seq<nat>)
    requires IsElement(v.tree, e) && Sat(v, None, s, e)
    ensures IsAssignment(v, s, f) && f[0] == e
    decreases |s|
  {
    var k := CompoundLen(s);
    if k < |s| {
      var y: nat :| Related(v.tree, s[k].combinator, y, e) && SatElement(v, None, s[k + 1..], y);
      var g := AssignmentExists(v, s[k + 1..], y);
      CompoundAlone(v, s, e);
      AssignmentExtends(v, s, k, s[k + 1..], e, g);
      f := [e] + g;
    } else {
      CompoundAlone(v, s, e);
      f := [e];
    }
  }

  /** The whole styling theorem: the engine's answer is "true" exactly when elements
      can be assigned to the compounds, the subject first. */
  lemma MatchedIffAssignment(c: Context, s: seq<Component>, e: nat)
    requires IsElement(c.tree, e) && c.mode.ForStyling?
    ensures SelVal(c, s, e).True? <==> exists f: seq<nat> :: IsAssignment(EnvOf(c), s, f) && f[0] == e
    ensures !SelVal(c, s, e).Unknown?
  {
    StylingIsExact(c, s, e);
    if SelVal(c, s, e).True? {
      var f := AssignmentExists(EnvOf(c), s, e);
    }
    forall f: seq<nat> | IsAssignment(EnvOf(c), s, f) && f[0] == e
      ensures Sat(EnvOf(c), None, s, e)
    {
      AssignmentSuffices(EnvOf(c), s, f);
    }
  }
}
