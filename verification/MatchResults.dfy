/** The failure codes of the backtracking matcher.

    Each code promises something about elements that the matcher has not tried:
    none on the ancestor chain matches, or no earlier sibling does.

    The lemmas show why every promise is kept when a code is passed on. */
module MatchResults {
  import opened Dom
  import opened KleeneLogic
  import opened Selectors
  import opened Semantics

  datatype MatchResult =
    | Matched
    | RestartFromClosestLaterSibling
    | RestartFromClosestDescendant
    | NotMatchedGlobally
    | UnknownResult

  function ToKleene(r: MatchResult): Kleene {
    match r
    case Matched => True
    case UnknownResult => Unknown
    case _ => False
  }

  ghost predicate IsSuffix(a: seq<nat>, b: seq<nat>) {
    |a| <= |b| && a == b[|b| - |a|..]
  }

  /** Result `r` for selector `s` at `e` is the right answer, and a failure code
      says for which other elements `s` fails as well. */
  ghost predicate Promise(c: Context, r: MatchResult, s: seq<Component>, e: nat)
    requires IsElement(c.tree, e)
  {
    && SelVal(c, s, e) == ToKleene(r)
    && (r.RestartFromClosestDescendant? ==>
          forall x: nat | Siblings(c.tree, x, e) && x < e :: SelVal(c, s, x).False?)
    && (r.NotMatchedGlobally? ==>
          forall x: nat | IsElement(c.tree, x) && IsSuffix(Ancestors(c.tree, x), Ancestors(c.tree, e)) ::
            SelVal(c, s, x).False?)
  }

  /** `y` is an element a combinator relates to `e` from the left. */
  ghost predicate Related(t: Tree, comb: Combinator, y: nat, e: nat)
    requires IsElement(t, e)
  {
    match comb
    case Child => ParentElement(t, e) == Some(y)
    case Descendant => y in Ancestors(t, e)
    case NextSibling => PrevSiblingElement(t, e) == Some(y)
    case LaterSibling => Siblings(t, y, e) && y < e
  }

  lemma RelatedIsElement(t: Tree, comb: Combinator, y: nat, e: nat)
    requires IsElement(t, e) && Related(t, comb, y, e)
    ensures y < e && IsElement(t, y)
  {
  }

  /** Walking on from `at`, the next candidate misses no related element. */
  lemma NextCandidateIsClosest(t: Tree, comb: Combinator, e: nat, at: nat)
    requires IsElement(t, e)
    requires at == e || (!TriesOnce(comb) && Related(t, comb, at, e))
    ensures var n := NextCandidate(t, comb, at);
            && (n.Some? ==> Related(t, comb, n.value, e))
            && forall y: nat | Related(t, comb, y, e) :: y >= at || (n.Some? && y <= n.value)
  {
    var n := NextCandidate(t, comb, at);
    if comb.Descendant? {
      NextAncestorIsClosest(t, e, at);
    } else {
      forall y: nat | Related(t, comb, y, e) && y < at
        ensures n.Some? && y <= n.value
      {
        assert comb.LaterSibling? ==> Siblings(t, y, at);
      }
    }
  }

  /** The ancestors of `e` from its `i`-th on are those of that ancestor. */
  lemma AncestorsSplit(t: Tree, e: nat, i: nat, y: nat)
    requires IsElement(t, e) && i < |Ancestors(t, e)| && y in Ancestors(t, e)
    ensures y >= Ancestors(t, e)[i] || y in Ancestors(t, Ancestors(t, e)[i])
  {
    var j :| 0 <= j < |Ancestors(t, e)| && Ancestors(t, e)[j] == y;
    AncestorsSuffix(t, e, i);
    if j < i {
      LowerOnChain(t, e, j, i);
    } else if j > i {
      assert y == Ancestors(t, e)[i + 1..][j - i - 1];
    }
  }

  lemma NextAncestorIsClosest(t: Tree, e: nat, at: nat)
    requires IsElement(t, e) && (at == e || at in Ancestors(t, e))
    ensures var n := ParentElement(t, at);
            && (n.Some? ==> n.value in Ancestors(t, e))
            && forall y: nat | y in Ancestors(t, e) :: y >= at || (n.Some? && y <= n.value)
  {
    var n := ParentElement(t, at);
    assert Ancestors(t, at) == if n.None? then [] else [n.value] + Ancestors(t, n.value);
    if at != e {
      var i :| 0 <= i < |Ancestors(t, e)| && Ancestors(t, e)[i] == at;
      forall y | y in Ancestors(t, e)
        ensures y >= at || y in Ancestors(t, at)
      {
        AncestorsSplit(t, e, i, y);
      }
      if n.Some? {
        AncestorTransitive(t, e, at, n.value);
      }
    }
  }

  /** The value over candidates is a disjunction that stops at the first candidate
      that does not fail: it fails exactly when all of them do. */
  lemma {:induction false} CandidateValFails(c: Context, s: seq<Component>, comb: Combinator, e: nat)
    requires IsElement(c.tree, e)
    ensures CandidateVal(c, s, comb, e).False?
            <==> forall y: nat | Related(c.tree, comb, y, e) :: SelVal(c, s, y).False?
  {
    NextCandidateIsClosest(c.tree, comb, e, e);
    var n := NextCandidate(c.tree, comb, e);
    if n.Some? && SelVal(c, s, n.value).False? && !TriesOnce(comb) {
      CandidateValFails(c, s, comb, n.value);
      forall y: nat
        ensures Related(c.tree, comb, y, e) <==> y == n.value || Related(c.tree, comb, y, n.value)
      {
        if comb.Descendant? {
          assert Ancestors(c.tree, e) == [n.value] + Ancestors(c.tree, n.value);
        }
      }
    } else {
      forall y: nat | Related(c.tree, comb, y, e)
        ensures n.Some? && (TriesOnce(comb) ==> y == n.value)
      {
      }
    }
  }

  lemma FailsWithoutCandidate(c: Context, s: seq<Component>, e: nat)
    requires IsElement(c.tree, e) && CompoundLen(s) < |s|
    requires forall y: nat | Related(c.tree, s[CompoundLen(s)].combinator, y, e) ::
               SelVal(c, s[CompoundLen(s) + 1..], y).False?
    ensures SelVal(c, s, e).False?
  {
    CandidateValFails(c, s[CompoundLen(s) + 1..], s[CompoundLen(s)].combinator, e);
  }

  /** Candidates of an earlier sibling lie at or before those of the later one. */
  lemma EarlierSiblingsHaveEarlierCandidates(t: Tree, comb: Combinator, x: nat, e: nat, y: nat)
    requires Siblings(t, x, e) && x < e && Related(t, comb, y, x)
    requires IsSiblingCombinator(comb)
    ensures exists z: nat :: Related(t, comb, z, e) && (y == z || (Siblings(t, y, z) && y < z))
  {
    if comb.LaterSibling? {
      assert Related(t, comb, y, e);
    } else {
      var p := PrevSiblingElement(t, e);
      assert p.Some? && x <= p.value;
      assert Related(t, comb, p.value, e);
    }
  }

  /** No sibling is left for `e`, hence none for any earlier sibling. */
  lemma OutOfSiblings(c: Context, s: seq<Component>, e: nat)
    requires IsElement(c.tree, e) && CompoundLen(s) < |s| && IsSiblingCombinator(s[CompoundLen(s)].combinator)
    requires var comb := s[CompoundLen(s)].combinator;
             && (forall y: nat | Related(c.tree, comb, y, e) :: SelVal(c, s[CompoundLen(s) + 1..], y).False?)
             && (comb.NextSibling? ==> PrevSiblingElement(c.tree, e).None?)
    ensures Promise(c, RestartFromClosestDescendant, s, e)
  {
    FailsWithoutCandidate(c, s, e);
    forall x: nat | Siblings(c.tree, x, e) && x < e
      ensures SelVal(c, s, x).False?
    {
      forall y: nat | Related(c.tree, s[CompoundLen(s)].combinator, y, x)
        ensures Related(c.tree, s[CompoundLen(s)].combinator, y, e)
      {
        EarlierSiblingsHaveEarlierCandidates(c.tree, s[CompoundLen(s)].combinator, x, e, y);
      }
      FailsWithoutCandidate(c, s, x);
    }
  }

  /** No ancestor is left for `e`, hence none for any element whose chain is a tail
      of the chain of `e`. */
  lemma OutOfAncestors(c: Context, s: seq<Component>, e: nat)
    requires IsElement(c.tree, e) && CompoundLen(s) < |s| && !IsSiblingCombinator(s[CompoundLen(s)].combinator)
    requires var comb := s[CompoundLen(s)].combinator;
             && (forall y: nat | Related(c.tree, comb, y, e) :: SelVal(c, s[CompoundLen(s) + 1..], y).False?)
             && (comb.Child? ==> ParentElement(c.tree, e).None?)
    ensures Promise(c, NotMatchedGlobally, s, e)
  {
    var comb := s[CompoundLen(s)].combinator;
    FailsWithoutCandidate(c, s, e);
    forall x: nat | IsElement(c.tree, x) && IsSuffix(Ancestors(c.tree, x), Ancestors(c.tree, e))
      ensures SelVal(c, s, x).False?
    {
      forall y: nat | Related(c.tree, comb, y, x)
        ensures Related(c.tree, comb, y, e)
      {
        SuffixKeepsCandidates(c.tree, comb, x, e, y);
      }
      FailsWithoutCandidate(c, s, x);
    }
  }

  lemma SuffixKeepsCandidates(t: Tree, comb: Combinator, x: nat, e: nat, y: nat)
    requires IsElement(t, x) && IsElement(t, e) && IsSuffix(Ancestors(t, x), Ancestors(t, e))
    requires comb.Descendant? || (comb.Child? && ParentElement(t, e).None?)
    requires Related(t, comb, y, x)
    ensures Related(t, comb, y, e)
  {
    if comb.Descendant? {
      var d := |Ancestors(t, e)| - |Ancestors(t, x)|;
      var j :| 0 <= j < |Ancestors(t, x)| && Ancestors(t, x)[j] == y;
      assert Ancestors(t, e)[d + j] == y;
    }
  }

  /** A global failure to the left is a global failure here. */
  lemma GlobalFailurePropagates(c: Context, s: seq<Component>, e: nat, at: nat)
    requires IsElement(c.tree, e) && CompoundLen(s) < |s|
    requires var comb := s[CompoundLen(s)].combinator;
             var rest := s[CompoundLen(s) + 1..];
             && Related(c.tree, comb, at, e)
             && Promise(c, NotMatchedGlobally, rest, at)
             && forall y: nat | Related(c.tree, comb, y, e) && y > at :: SelVal(c, rest, y).False?
    ensures Promise(c, NotMatchedGlobally, s, e)
  {
    var t := c.tree;
    var comb, rest := s[CompoundLen(s)].combinator, s[CompoundLen(s) + 1..];
    forall x: nat | IsElement(t, x) && IsSuffix(Ancestors(t, x), Ancestors(t, e))
      ensures SelVal(c, s, x).False?
    {
      CandidatesFailToo(c, comb, rest, e, at, x);
      FailsWithoutCandidate(c, s, x);
    }
    FailsOnChain(c, s, e);
  }

  lemma FailsOnChain(c: Context, s: seq<Component>, e: nat)
    requires IsElement(c.tree, e)
    requires forall x: nat | IsElement(c.tree, x) && IsSuffix(Ancestors(c.tree, x), Ancestors(c.tree, e)) ::
               SelVal(c, s, x).False?
    ensures Promise(c, NotMatchedGlobally, s, e)
  {
    SuffixOfItself(Ancestors(c.tree, e));
    assert SelVal(c, s, e).False?;
  }

  lemma SuffixOfItself(a: seq<nat>)
    ensures IsSuffix(a, a)
  {
    assert a == a[0..];
  }

  lemma CandidatesFailToo(c: Context, comb: Combinator, rest: seq<Component>, e: nat, at: nat, x: nat)
    requires IsElement(c.tree, e) && Related(c.tree, comb, at, e) && Promise(c, NotMatchedGlobally, rest, at)
    requires forall z: nat | Related(c.tree, comb, z, e) && z > at :: SelVal(c, rest, z).False?
    requires IsElement(c.tree, x) && IsSuffix(Ancestors(c.tree, x), Ancestors(c.tree, e))
    ensures forall y: nat | Related(c.tree, comb, y, x) :: SelVal(c, rest, y).False?
  {
    forall y: nat | Related(c.tree, comb, y, x)
      ensures SelVal(c, rest, y).False?
    {
      CandidateFailsToo(c, comb, rest, e, at, x, y);
    }
  }

  lemma CandidateFailsToo(c: Context, comb: Combinator, rest: seq<Component>, e: nat, at: nat, x: nat, y: nat)
    requires IsElement(c.tree, e) && Related(c.tree, comb, at, e) && Promise(c, NotMatchedGlobally, rest, at)
    requires forall z: nat | Related(c.tree, comb, z, e) && z > at :: SelVal(c, rest, z).False?
    requires IsElement(c.tree, x) && IsSuffix(Ancestors(c.tree, x), Ancestors(c.tree, e))
    requires Related(c.tree, comb, y, x)
    ensures SelVal(c, rest, y).False?
  {
    if IsSiblingCombinator(comb) {
      SiblingsShareAncestors(c.tree, y, x);
      SiblingsShareAncestors(c.tree, at, e);
    } else {
      CandidateOnOneChain(c.tree, comb, x, y, e, at);
    }
  }

  /** The part of `e`'s chain above its `i`-th ancestor, counted from `x`. */
  lemma ChainAbove(t: Tree, x: nat, e: nat, j: nat)
    requires IsElement(t, x) && IsElement(t, e) && IsSuffix(Ancestors(t, x), Ancestors(t, e))
    requires j < |Ancestors(t, x)|
    ensures var i := |Ancestors(t, e)| - |Ancestors(t, x)| + j;
            && Ancestors(t, e)[i] == Ancestors(t, x)[j]
            && Ancestors(t, Ancestors(t, x)[j]) == Ancestors(t, e)[i + 1..]
  {
    var above, chain := Ancestors(t, x), Ancestors(t, e);
    var i := |chain| - |above| + j;
    assert chain[i] == above[j] by {
      assert chain[|chain| - |above|..][j] == chain[i];
    }
    AncestorsSuffix(t, e, i);
  }

  lemma CandidatePosition(t: Tree, comb: Combinator, x: nat, y: nat) returns (j: nat)
    requires IsElement(t, x) && !IsSiblingCombinator(comb) && Related(t, comb, y, x)
    ensures j < |Ancestors(t, x)| && Ancestors(t, x)[j] == y
    ensures comb.Child? ==> j == 0
  {
    if comb.Child? {
      j := 0;
    } else {
      j :| 0 <= j < |Ancestors(t, x)| && Ancestors(t, x)[j] == y;
    }
  }

  lemma LowerOnChain(t: Tree, e: nat, k: nat, i: nat)
    requires IsElement(t, e) && k < i < |Ancestors(t, e)|
    ensures Ancestors(t, e)[k] > Ancestors(t, e)[i]
  {
    AncestorsSuffix(t, e, k);
    assert Ancestors(t, e)[i] == Ancestors(t, e)[k + 1..][i - k - 1];
  }

  lemma TailsOfOneChain(s: seq<nat>, p: nat, q: nat)
    requires q <= p <= |s|
    ensures IsSuffix(s[p..], s[q..])
  {
    assert s[p..] == s[q..][p - q..];
  }

  /** On the chain of `e`, a candidate of `x` either lies below `at` or has a chain
      that is a tail of the chain of `at`. */
  lemma CandidateOnOneChain(t: Tree, comb: Combinator, x: nat, y: nat, e: nat, at: nat)
    requires IsElement(t, x) && IsElement(t, e) && IsSuffix(Ancestors(t, x), Ancestors(t, e))
    requires !IsSiblingCombinator(comb) && Related(t, comb, y, x) && Related(t, comb, at, e)
    ensures IsElement(t, y) && IsElement(t, at)
    ensures (Related(t, comb, y, e) && y > at) || IsSuffix(Ancestors(t, y), Ancestors(t, at))
  {
    var k := PositionAbove(t, comb, x, y, e);
    var i := CandidatePosition(t, comb, e, at);
    ChainPositions(t, e, k, i);
  }

  /** Where a candidate of `x` is found on the chain of `e`. */
  lemma PositionAbove(t: Tree, comb: Combinator, x: nat, y: nat, e: nat) returns (k: nat)
    requires IsElement(t, x) && IsElement(t, e) && IsSuffix(Ancestors(t, x), Ancestors(t, e))
    requires !IsSiblingCombinator(comb) && Related(t, comb, y, x)
    ensures k < |Ancestors(t, e)| && Ancestors(t, e)[k] == y
  {
    var j := CandidatePosition(t, comb, x, y);
    ChainAbove(t, x, e, j);
    k := |Ancestors(t, e)| - |Ancestors(t, x)| + j;
  }

  /** Two places on one chain. */
  lemma ChainPositions(t: Tree, e: nat, k: nat, i: nat)
    requires IsElement(t, e) && k < |Ancestors(t, e)| && i < |Ancestors(t, e)|
    ensures var a := Ancestors(t, e);
            if k < i then a[k] > a[i] else IsSuffix(Ancestors(t, a[k]), Ancestors(t, a[i]))
  {
    if k < i {
      LowerOnChain(t, e, k, i);
    } else {
      AncestorsSuffix(t, e, k);
      AncestorsSuffix(t, e, i);
      TailsOfOneChain(Ancestors(t, e), k + 1, i + 1);
    }
  }

  /** A sibling search that reported "restart from the closest descendant". */
  lemma DescendantRestartPropagates(c: Context, s: seq<Component>, e: nat, at: nat)
    requires IsElement(c.tree, e) && CompoundLen(s) < |s|
    requires var comb := s[CompoundLen(s)].combinator;
             var rest := s[CompoundLen(s) + 1..];
             && IsSiblingCombinator(comb)
             && Related(c.tree, comb, at, e)
             && Promise(c, RestartFromClosestDescendant, rest, at)
             && forall y: nat | Related(c.tree, comb, y, e) && y > at :: SelVal(c, rest, y).False?
    ensures Promise(c, RestartFromClosestDescendant, s, e)
  {
    var comb := s[CompoundLen(s)].combinator;
    var rest := s[CompoundLen(s) + 1..];
    FailsWithoutCandidate(c, s, e);
    forall x: nat | Siblings(c.tree, x, e) && x < e
      ensures SelVal(c, s, x).False?
    {
      forall y: nat | Related(c.tree, comb, y, x)
        ensures SelVal(c, rest, y).False?
      {
        EarlierSiblingsHaveEarlierCandidates(c.tree, comb, x, e, y);
      }
      FailsWithoutCandidate(c, s, x);
    }
  }

  /** The parent failed, so every child of it fails. */
  lemma ParentFailed(c: Context, s: seq<Component>, e: nat, p: nat)
    requires IsElement(c.tree, e) && CompoundLen(s) < |s| && s[CompoundLen(s)].combinator.Child?
    requires ParentElement(c.tree, e) == Some(p) && SelVal(c, s[CompoundLen(s) + 1..], p).False?
    ensures Promise(c, RestartFromClosestDescendant, s, e)
  {
    FailsWithoutCandidate(c, s, e);
    forall x: nat | Siblings(c.tree, x, e) && x < e
      ensures SelVal(c, s, x).False?
    {
      FailsWithoutCandidate(c, s, x);
    }
  }
}
