/** Where `:has()` has to search.

    The hint of a relative selector loses nothing: an element that matches it for an
    anchor always lies where the hint says. */
module RelativeHints {
  import opened Dom
  import opened KleeneLogic
  import opened Selectors
  import opened Semantics
  import opened MatchResults
  import Layout

  /** The elements a hint makes the engine look at, seen from anchor `a`. */
  ghost predicate InHint(t: Tree, hint: MatchHint, a: nat, x: nat)
    requires IsElement(t, a) && IsElement(t, x)
  {
    match hint
    case InChild => IsChildElement(t, x, a)
    case InSubtree => a in Ancestors(t, x)
    case InNextSibling => NextSiblingElement(t, a) == Some(x)
    case InNextSiblingSubtree => NextSiblingElement(t, a).Some? && NextSiblingElement(t, a).value in Ancestors(t, x)
    case InSibling => Siblings(t, x, a) && a < x
    case InSiblingSubtree => exists b: nat :: Siblings(t, b, a) && a < b && b in Ancestors(t, x)
  }

  /** One combinator further right, the search space is at most the one for the
      combinators seen so far plus this one. */
  lemma HintStep(t: Tree, rel: Combinator, d: bool, sb: bool, comb: Combinator, a: nat, y: nat, x: nat)
    requires IsElement(t, a) && IsElement(t, y) && IsElement(t, x)
    requires InHint(t, NewMatchHint(rel, d, sb), a, y) && Related(t, comb, y, x)
    ensures InHint(t, NewMatchHint(rel, d || !IsSiblingCombinator(comb), sb || IsSiblingCombinator(comb)), a, x)
  {
    if IsSiblingCombinator(comb) {
      SiblingsShareAncestors(t, y, x);
    } else {
      assert y in Ancestors(t, x);
      forall b | b in Ancestors(t, y)
        ensures b in Ancestors(t, x)
      {
        AncestorTransitive(t, x, y, b);
      }
    }
  }

  lemma PrevIsNext(t: Tree, a: nat, x: nat)
    requires IsElement(t, a) && IsElement(t, x) && PrevSiblingElement(t, x) == Some(a)
    ensures NextSiblingElement(t, a) == Some(x)
  {
    var n := NextSiblingElement(t, a);
    assert Siblings(t, x, a);
    if n.value < x {
      assert Siblings(t, n.value, x);
    }
  }

  lemma AnchorOnly(c: Context, s: seq<Component>, y: nat)
    requires IsElement(c.tree, y) && c.anchor.Some?
    requires s == [RelativeSelectorAnchor] && !SelVal(c, s, y).False?
    ensures y == c.anchor.value
  {
    assert CompoundLen(s) == 1;
    assert !CompoundVal(c, s, y).False?;
    assert !SimpleVal(c, s[0], y).False?;
  }

  lemma CombinatorsOf(s: seq<Component>, k: nat)
    requires k < |s| && s[k].CombinatorItem? && forall i | 0 <= i < k :: !s[i].CombinatorItem?
    ensures HasDescendantCombinator(s) <==> !IsSiblingCombinator(s[k].combinator) || HasDescendantCombinator(s[k + 1..])
    ensures HasSiblingCombinator(s) <==> IsSiblingCombinator(s[k].combinator) || HasSiblingCombinator(s[k + 1..])
  {
    var rest := s[k + 1..];
    assert forall i | k + 1 <= i < |s| :: s[i] == rest[i - (k + 1)];
    assert forall i | 0 <= i < |rest| :: rest[i] == s[i + (k + 1)];
  }

  lemma MatchNeedsCandidate(c: Context, s: seq<Component>, x: nat) returns (y: nat)
    requires IsElement(c.tree, x) && CompoundLen(s) < |s| && !SelVal(c, s, x).False?
    ensures IsElement(c.tree, y) && Related(c.tree, s[CompoundLen(s)].combinator, y, x)
    ensures !SelVal(c, s[CompoundLen(s) + 1..], y).False?
  {
    var comb := s[CompoundLen(s)].combinator;
    var rest := s[CompoundLen(s) + 1..];
    CandidateValFails(c, rest, comb, x);
    y :| Related(c.tree, comb, y, x) && !SelVal(c, rest, y).False?;
    RelatedIsElement(c.tree, comb, y, x);
  }

  /** The hint of a relative selector, from the one without its last compound. */
  lemma HintOfRest(s: seq<Component>)
    requires EndsWithAnchor(s) && CompoundLen(s) < |s| - 2
    ensures var rest := s[CompoundLen(s) + 1..];
            var comb := s[CompoundLen(s)].combinator;
            var inner := rest[..|rest| - 2];
            && EndsWithAnchor(rest) && rest[|rest| - 2] == s[|s| - 2]
            && HintOf(s) == NewMatchHint(s[|s| - 2].combinator,
                                         HasDescendantCombinator(inner) || !IsSiblingCombinator(comb),
                                         HasSiblingCombinator(inner) || IsSiblingCombinator(comb))
  {
    var k := CompoundLen(s);
    var rest := s[k + 1..];
    assert rest[|rest| - 1] == s[|s| - 1] && rest[|rest| - 2] == s[|s| - 2];
    assert s[..|s| - 2][k + 1..] == rest[..|rest| - 2];
    CombinatorsOf(s[..|s| - 2], k);
  }

  /** Everything that matches a relative selector for the anchor is in the search
      space its hint selects. */
  lemma {:induction false} HintLosesNothing(c: Context, s: seq<Component>, a: nat, x: nat)
    requires IsElement(c.tree, a) && IsElement(c.tree, x) && c.anchor == Some(a)
    requires EndsWithAnchor(s) && !SelVal(c, s, x).False?
    ensures InHint(c.tree, HintOf(s), a, x)
    decreases |s|
  {
    var k := CompoundLen(s);
    var rest := s[k + 1..];
    var y := MatchNeedsCandidate(c, s, x);
    if k == |s| - 2 {
      AnchorOnly(c, rest, y);
      HintOfDirectRelation(c.tree, s, a, x);
    } else {
      HintLosesNothing(c, rest, a, y);
      HintExtends(c.tree, s, rest, a, y, x);
    }
  }

  lemma HintOfDirectRelation(t: Tree, s: seq<Component>, a: nat, x: nat)
    requires IsElement(t, a) && IsElement(t, x) && EndsWithAnchor(s) && CompoundLen(s) == |s| - 2
    requires Related(t, s[|s| - 2].combinator, a, x)
    ensures InHint(t, HintOf(s), a, x)
  {
    if s[|s| - 2].combinator.NextSibling? {
      PrevIsNext(t, a, x);
    }
  }

  lemma HintExtends(t: Tree, s: seq<Component>, rest: seq<Component>, a: nat, y: nat, x: nat)
    requires IsElement(t, a) && IsElement(t, x) && IsElement(t, y)
    requires EndsWithAnchor(s) && CompoundLen(s) < |s| - 2 && rest == s[CompoundLen(s) + 1..] && EndsWithAnchor(rest)
    requires Related(t, s[CompoundLen(s)].combinator, y, x) && InHint(t, HintOf(rest), a, y)
    ensures InHint(t, HintOf(s), a, x)
  {
    var rel, comb := s[|s| - 2].combinator, s[CompoundLen(s)].combinator;
    var d, sb := HintParts(s, rest, rel, comb);
    HintStep(t, rel, d, sb, comb, a, y, x);
  }

  lemma HintParts(s: seq<Component>, rest: seq<Component>, rel: Combinator, comb: Combinator)
    returns (d: bool, sb: bool)
    requires EndsWithAnchor(s) && CompoundLen(s) < |s| - 2 && rest == s[CompoundLen(s) + 1..] && EndsWithAnchor(rest)
    requires rel == s[|s| - 2].combinator && comb == s[CompoundLen(s)].combinator
    ensures HintOf(rest) == NewMatchHint(rel, d, sb)
    ensures HintOf(s) == NewMatchHint(rel, d || !IsSiblingCombinator(comb), sb || IsSiblingCombinator(comb))
  {
    HintOfRest(s);
    d, sb := HasDescendantCombinator(rest[..|rest| - 2]), HasSiblingCombinator(rest[..|rest| - 2]);
  }

  // ------------------------------------------------- computing the hint

  /** The combinators still to be read, from the combinator the iterator waits at. */
  ghost function Pending(next: Option<Combinator>, rest: seq<Component>): seq<Component> {
    if next.None? then [] else [CombinatorItem(next.value)] + rest
  }

  lemma FinishedCompound(s: seq<Component>)
    ensures var k := CompoundLen(s);
            && (k == |s| ==> !HasDescendantCombinator(s) && !HasSiblingCombinator(s))
            && (k < |s| ==>
                  && (HasDescendantCombinator(s) <==> HasDescendantCombinator([s[k]] + s[k + 1..]))
                  && (HasSiblingCombinator(s) <==> HasSiblingCombinator([s[k]] + s[k + 1..])))
  {
    var k := CompoundLen(s);
    if k < |s| {
      CombinatorsOf(s, k);
      CombinatorsOf([s[k]] + s[k + 1..], 0);
      assert ([s[k]] + s[k + 1..])[1..] == s[k + 1..];
    }
  }

  /** Reading one combinator and the compound after it. */
  lemma PendingStep(pending: seq<Component>, comb: Combinator, rest: seq<Component>, after: seq<Component>)
    requires pending == Pending(Some(comb), rest)
    requires var k := CompoundLen(rest); after == if k < |rest| then [rest[k]] + rest[k + 1..] else []
    ensures HasDescendantCombinator(pending) <==> !IsSiblingCombinator(comb) || HasDescendantCombinator(after)
    ensures HasSiblingCombinator(pending) <==> IsSiblingCombinator(comb) || HasSiblingCombinator(after)
  {
    CombinatorsOf(pending, 0);
    assert pending[1..] == rest;
    FinishedCompound(rest);
  }

  /** Walks the combinators to the right of the anchor, stopping once both kinds have
      been seen. */
  method ComputeMatchHint(s: seq<Component>) returns (hint: MatchHint)
    requires EndsWithAnchor(s)
    ensures hint == HintOf(s)
  {
    var inner := s[..|s| - 2];
    var iter := new Layout.SelectorIter(inner);
    FinishedCompound(inner);
    var skipped := iter.FinishCompound();
    var descendants, siblings := false, false;
    while true
      invariant fresh(iter) && iter.Valid()
      invariant HasDescendantCombinator(inner)
                <==> descendants || HasDescendantCombinator(Pending(iter.nextCombinator, iter.Rest()))
      invariant HasSiblingCombinator(inner)
                <==> siblings || HasSiblingCombinator(Pending(iter.nextCombinator, iter.Rest()))
      decreases |iter.Rest()|, iter.nextCombinator.Some?
    {
      ghost var pending := Pending(iter.nextCombinator, iter.Rest());
      var c := iter.NextSequence();
      if c.None? {
        break;
      }
      ghost var rest := iter.Rest();
      skipped := iter.FinishCompound();
      PendingStep(pending, c.value, rest, Pending(iter.nextCombinator, iter.Rest()));
      if IsSiblingCombinator(c.value) {
        siblings := true;
      } else {
        descendants := true;
      }
      if descendants && siblings {
        break;
      }
    }
    hint := NewMatchHint(s[|s| - 2].combinator, descendants, siblings);
  }
}
