/** Selectors without a leaf that some mode leaves open have one value in all modes, so that nothing else makes
    invalidation look further or leaves a comparison unsettled. */
module ClosedSelectors {
  import opened Dom
  import opened KleeneLogic
  import opened Selectors
  import opened Semantics
  import opened MatchResults

  /** No `:scope`, `:has()` or nth selector, at any depth. */
  predicate Closed(s: seq<Component>)
    decreases s
  {
    forall i | 0 <= i < |s| :: ClosedComponent(s[i])
  }

  predicate ClosedList(list: SelectorList)
    decreases list
  {
    forall i | 0 <= i < |list| :: Closed(list[i].components)
  }

  predicate ClosedComponent(x: Component)
    decreases x
  {
    match x
    case Scope => false
    case ImplicitScope => false
    case Nth(_) => false
    case NthOf(_, _) => false
    case Has(_) => false
    case Is(list) => ClosedList(list)
    case Where(list) => ClosedList(list)
    case Negation(list) => ClosedList(list)
    case _ => true
  }

  /** The same but for the mode and the polarity. */
  predicate SameButMode(c: Context, d: Context) {
    d == c.(mode := d.mode, inNegation := d.inNegation) && c.parent.None?
  }

  lemma {:induction false} ClosedInAllModes(c: Context, d: Context, s: seq<Component>, e: nat)
    requires IsElement(c.tree, e) && SameButMode(c, d) && Closed(s)
    ensures SelVal(c, s, e) == SelVal(d, s, e)
    decreases s, e, 2
  {
    var k := CompoundLen(s);
    CompoundInAllModes(c, d, s, e);
    if k < |s| {
      CandidateInAllModes(c, d, s, s[k + 1..], s[k].combinator, e);
    }
  }

  lemma {:induction false} CandidateInAllModes(c: Context, d: Context, s: seq<Component>, rest: seq<Component>,
                                               comb: Combinator, e: nat)
    requires IsElement(c.tree, e) && SameButMode(c, d) && Closed(s)
    requires CompoundLen(s) < |s| && rest == s[CompoundLen(s) + 1..]
    ensures CandidateVal(c, rest, comb, e) == CandidateVal(d, rest, comb, e)
    decreases s, e, 1
  {
    var n := NextCandidate(c.tree, comb, e);
    if n.Some? {
      ClosedInAllModes(c, d, rest, n.value);
      CandidateInAllModes(c, d, s, rest, comb, n.value);
    }
  }

  lemma {:induction false} CompoundInAllModes(c: Context, d: Context, s: seq<Component>, e: nat)
    requires IsElement(c.tree, e) && SameButMode(c, d) && Closed(s)
    ensures CompoundVal(c, s, e) == CompoundVal(d, s, e)
    decreases s, e, 0
  {
    forall i | 0 <= i < CompoundLen(s)
      ensures SimpleVal(c, s[i], e) == SimpleVal(d, s[i], e)
    {
      ComponentInAllModes(c, d, s[i], e);
    }
  }

  lemma {:induction false} ListInAllModes(c: Context, d: Context, list: SelectorList, e: nat)
    requires IsElement(c.tree, e) && SameButMode(c, d) && ClosedList(list)
    ensures ListVal(c, list, e) == ListVal(d, list, e)
    decreases list
  {
    forall i | 0 <= i < |list|
      ensures SelVal(c, list[i].components, e) == SelVal(d, list[i].components, e)
    {
      ClosedInAllModes(c, d, list[i].components, e);
    }
  }

  lemma {:induction false} ComponentInAllModes(c: Context, d: Context, x: Component, e: nat)
    requires IsElement(c.tree, e) && SameButMode(c, d) && ClosedComponent(x)
    ensures SimpleVal(c, x, e) == SimpleVal(d, x, e)
    decreases x
  {
    match x {
      case Is(list) => ListInAllModes(c, d, list, e);
      case Where(list) => ListInAllModes(c, d, list, e);
      case Negation(list) =>
        ListInAllModes(c.(inNegation := !c.inNegation), d.(inNegation := !d.inNegation), list, e);
      case _ =>
    }
  }

  /** An nth selector with a closed list fails in every mode where the list does. */
  lemma UnchosenFailsInAllModes(c: Context, d: Context, x: Component, e: nat)
    requires IsElement(c.tree, e) && SameButMode(c, d) && x.NthOf? && x.selectors != [] && ClosedList(x.selectors)
    requires ListVal(c, x.selectors, e).False? || Data(c.tree, e).ignoresNth
    ensures SimpleVal(d, x, e).False?
  {
    ListInAllModes(c, d, x.selectors, e);
  }
}
