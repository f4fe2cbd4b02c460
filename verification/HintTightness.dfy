/** No hint of a relative selector is wider than needed: in one tree, for every kind of relative combinator and
    every choice of further ones, a selector reaches an element that only hints at least as wide look at. */
module HintTightness {
  import opened Dom
  import opened KleeneLogic
  import opened Selectors
  import opened Semantics
  import opened MatchResults
  import opened Meaning
  import opened MatchingTheorems
  import opened RelativeHints

  /** Everything that `narrow` looks at, `wide` looks at too. */
  ghost predicate Covers(wide: MatchHint, narrow: MatchHint) {
    forall t: Tree, a: nat, x: nat | IsElement(t, a) && IsElement(t, x) && InHint(t, narrow, a, x) ::
      InHint(t, wide, a, x)
  }

  const ANY: ElementData := ElementData("p", "", None, [], [], false, false, false, false, false, {})

  /** The anchor 1 with two children, 2 and 5, the first of which has two of its own, 3 and 4; and two later siblings,
      6 and 8, with a child each, 7 and 9. */
  const CLAN: TreeData := TreeData(
    [Element(ANY), Element(ANY), Element(ANY), Element(ANY), Element(ANY), Element(ANY), Element(ANY), Element(ANY),
      Element(ANY), Element(ANY)],
    [None, Some(0), Some(1), Some(2), Some(2), Some(1), Some(0), Some(6), Some(0), Some(8)])

  const ANCHOR: nat := 1

  ghost function InClan(): (c: Context)
    ensures c.mode.ForStyling? && c.anchor == Some(ANCHOR)
  {
    Context(CLAN, false, ForStyling, false, Some(ANCHOR), None, AllLinksUnvisited, None)
  }

  // ------------------------------------------------------------- selectors

  /** Universal compounds with the combinators `combs` in between, the subject's first, and the
      anchor at the end. */
  function Starred(combs: seq<Combinator>): (s: seq<Component>)
    ensures |s| == 2 * |combs| + 1
  {
    if combs == [] then [RelativeSelectorAnchor]
    else [ExplicitUniversalType, CombinatorItem(combs[0])] + Starred(combs[1..])
  }

  ghost predicate Leads(t: Tree, combs: seq<Combinator>, f: seq<nat>) {
    && |f| == |combs| + 1
    && (forall i | 0 <= i < |f| :: IsElement(t, f[i]))
    && forall i | 0 <= i < |combs| :: Related(t, combs[i], f[i + 1], f[i])
  }

  /** Elements that lead to the anchor along the combinators make a match. */
  lemma {:induction false} StarredMatches(v: Env, combs: seq<Combinator>, f: seq<nat>)
    requires Leads(v.tree, combs, f) && v.anchor == Some(f[|f| - 1])
    ensures Sat(v, None, Starred(combs), f[0])
    decreases |combs|
  {
    var s := Starred(combs);
    if combs == [] {
      CompoundLenUnique(s, 1);
      assert SatSimple(v, None, s[0], f[0]);
    } else {
      var rest, g := Starred(combs[1..]), f[1..];
      StarredMatches(v, combs[1..], g);
      CompoundLenUnique(s, 1);
      assert SatSimple(v, None, s[0], f[0]) && s[2..] == rest && s[1].combinator == combs[0];
      assert SatElement(v, None, rest, g[0]) && Related(v.tree, combs[0], f[1], f[0]);
    }
  }

  ghost predicate AnyDown(combs: seq<Combinator>) {
    exists i | 0 <= i < |combs| :: !IsSiblingCombinator(combs[i])
  }

  ghost predicate AnySideways(combs: seq<Combinator>) {
    exists i | 0 <= i < |combs| :: IsSiblingCombinator(combs[i])
  }

  lemma {:induction false} StarredCombinators(combs: seq<Combinator>)
    requires combs != []
    ensures var s, last := Starred(combs), |combs| - 1;
            && EndsWithAnchor(s) && s[|s| - 2] == CombinatorItem(combs[last])
            && (HasDescendantCombinator(s[..|s| - 2]) <==> AnyDown(combs[..last]))
            && (HasSiblingCombinator(s[..|s| - 2]) <==> AnySideways(combs[..last]))
    decreases |combs|
  {
    var s, last := Starred(combs), |combs| - 1;
    if last == 0 {
      assert Starred(combs[1..]) == [RelativeSelectorAnchor];
    } else {
      var rest := Starred(combs[1..]);
      StarredCombinators(combs[1..]);
      assert s[..|s| - 2] == [ExplicitUniversalType, CombinatorItem(combs[0])] + rest[..|rest| - 2];
      CombinatorsOf(s[..|s| - 2], 1);
      assert s[..|s| - 2][2..] == rest[..|rest| - 2];
      OneMoreCombinator(combs[..last], combs[1..][..last - 1]);
    }
  }

  lemma OneMoreCombinator(combs: seq<Combinator>, rest: seq<Combinator>)
    requires combs != [] && rest == combs[1..]
    ensures AnyDown(combs) <==> !IsSiblingCombinator(combs[0]) || AnyDown(rest)
    ensures AnySideways(combs) <==> IsSiblingCombinator(combs[0]) || AnySideways(rest)
  {
    assert forall i | 1 <= i < |combs| :: combs[i] == rest[i - 1];
    assert forall i | 0 <= i < |rest| :: rest[i] == combs[i + 1];
  }

  // ----------------------------------------------------------- the witness

  /** Combinators, the last of them `rel`, and elements that they lead along. */
  function Way(rel: Combinator, d: bool, sb: bool): (seq<Combinator>, seq<nat>) {
    match (rel, d, sb)
    case (Descendant, false, false) => ([Descendant], [3, 1])
    case (Descendant, false, true) => ([LaterSibling, Descendant], [4, 3, 1])
    case (Descendant, true, false) => ([Child, Descendant], [3, 2, 1])
    case (Descendant, true, true) => ([LaterSibling, Child, Descendant], [4, 3, 2, 1])
    case (Child, false, false) => ([Child], [2, 1])
    case (Child, false, true) => ([LaterSibling, Child], [5, 2, 1])
    case (Child, true, false) => ([Child, Child], [3, 2, 1])
    case (Child, true, true) => ([LaterSibling, Child, Child], [4, 3, 2, 1])
    case (NextSibling, false, false) => ([NextSibling], [6, 1])
    case (NextSibling, false, true) => ([LaterSibling, NextSibling], [8, 6, 1])
    case (NextSibling, true, false) => ([Child, NextSibling], [7, 6, 1])
    case (NextSibling, true, true) => ([Child, LaterSibling, NextSibling], [9, 8, 6, 1])
    case (LaterSibling, false, false) => ([LaterSibling], [8, 1])
    case (LaterSibling, false, true) => ([NextSibling, LaterSibling], [8, 6, 1])
    case (LaterSibling, true, false) => ([Child, LaterSibling], [9, 8, 1])
    case (LaterSibling, true, true) => ([Child, NextSibling, LaterSibling], [9, 8, 6, 1])
  }

  lemma ClanTies()
    ensures IsTree(CLAN) && forall e: nat :: IsElement(CLAN, e) <==> e < 10
    ensures ParentElement(CLAN, 2) == ParentElement(CLAN, 5) == Some(1)
    ensures ParentElement(CLAN, 3) == ParentElement(CLAN, 4) == Some(2)
    ensures ParentElement(CLAN, 1) == ParentElement(CLAN, 6) == ParentElement(CLAN, 8) == Some(0)
    ensures ParentElement(CLAN, 7) == Some(6) && ParentElement(CLAN, 9) == Some(8) && ParentElement(CLAN, 0).None?
  {
  }

  lemma ClanChains()
    ensures Ancestors(CLAN, 0) == [] && Ancestors(CLAN, 1) == Ancestors(CLAN, 6) == Ancestors(CLAN, 8) == [0]
    ensures Ancestors(CLAN, 2) == Ancestors(CLAN, 5) == [1, 0]
    ensures Ancestors(CLAN, 3) == Ancestors(CLAN, 4) == [2, 1, 0]
    ensures Ancestors(CLAN, 7) == [6, 0] && Ancestors(CLAN, 9) == [8, 0]
  {
    ClanTies();
  }

  lemma PrevIs(t: Tree, e: nat, y: nat)
    requires Siblings(t, y, e) && y < e && forall z | y < z < e :: !Siblings(t, z, e)
    ensures PrevSiblingElement(t, e) == Some(y)
  {
  }

  lemma NextIs(t: Tree, e: nat, y: nat)
    requires Siblings(t, y, e) && e < y && forall z | e < z < y :: !Siblings(t, z, e)
    ensures NextSiblingElement(t, e) == Some(y)
  {
  }

  lemma ClanSiblings()
    ensures forall x: nat, e: nat | e == 1 || e == 6 || e == 8 :: Siblings(CLAN, x, e) <==> x == 1 || x == 6 || x == 8
    ensures Siblings(CLAN, 3, 4) && Siblings(CLAN, 2, 5)
  {
    ClanTies();
  }

  lemma ClanNeighbours()
    ensures IsElement(CLAN, 1) && IsElement(CLAN, 6) && IsElement(CLAN, 8)
    ensures PrevSiblingElement(CLAN, 6) == Some(1) && PrevSiblingElement(CLAN, 8) == Some(6)
    ensures NextSiblingElement(CLAN, 1) == Some(6)
  {
    ClanTies();
    ClanSiblings();
    PrevIs(CLAN, 6, 1);
    PrevIs(CLAN, 8, 6);
    NextIs(CLAN, 1, 6);
  }

  lemma ClanRelations()
    ensures IsTree(CLAN) && forall e: nat | 1 <= e < 10 :: IsElement(CLAN, e)
    ensures Related(CLAN, Child, 1, 2) && Related(CLAN, Child, 2, 3) && Related(CLAN, Descendant, 1, 3)
    ensures Related(CLAN, LaterSibling, 3, 4) && Related(CLAN, LaterSibling, 2, 5)
    ensures Related(CLAN, NextSibling, 1, 6) && Related(CLAN, LaterSibling, 1, 8)
    ensures Related(CLAN, NextSibling, 6, 8) && Related(CLAN, LaterSibling, 6, 8)
    ensures Related(CLAN, Child, 6, 7) && Related(CLAN, Child, 8, 9)
  {
    ClanTies();
    ClanChains();
    ClanSiblings();
    ClanNeighbours();
    assert 1 in [2, 1, 0];
  }

  lemma WayLeads(rel: Combinator, d: bool, sb: bool)
    ensures IsTree(CLAN)
    ensures var (combs, f) := Way(rel, d, sb); Leads(CLAN, combs, f) && f[|f| - 1] == ANCHOR
  {
    ClanRelations();
    if IsSiblingCombinator(rel) {
      WayLeadsSideways(rel, d, sb);
    } else {
      WayLeadsDown(rel, d, sb);
    }
  }

  lemma WayLeadsDown(rel: Combinator, d: bool, sb: bool)
    requires IsTree(CLAN) && !IsSiblingCombinator(rel)
    ensures var (combs, f) := Way(rel, d, sb); Leads(CLAN, combs, f) && f[|f| - 1] == ANCHOR
  {
    ClanRelations();
  }

  lemma WayLeadsSideways(rel: Combinator, d: bool, sb: bool)
    requires IsTree(CLAN) && IsSiblingCombinator(rel)
    ensures var (combs, f) := Way(rel, d, sb); Leads(CLAN, combs, f) && f[|f| - 1] == ANCHOR
  {
    ClanRelations();
  }

  lemma WayMatches(rel: Combinator, d: bool, sb: bool)
    requires IsTree(CLAN)
    ensures var (combs, f) := Way(rel, d, sb);
            IsElement(CLAN, f[0]) && SelVal(InClan(), Starred(combs), f[0]).True?
  {
    var (combs, f) := Way(rel, d, sb);
    WayLeads(rel, d, sb);
    StarredMatches(EnvOf(InClan()), combs, f);
    StylingIsExact(InClan(), Starred(combs), f[0]);
  }

  lemma WayIsOfKind(rel: Combinator, d: bool, sb: bool)
    ensures var combs := Way(rel, d, sb).0;
            && combs != [] && combs[|combs| - 1] == rel
            && (AnyDown(combs[..|combs| - 1]) <==> d) && (AnySideways(combs[..|combs| - 1]) <==> sb)
  {
    var combs := Way(rel, d, sb).0;
    var inner := combs[..|combs| - 1];
    if d {
      assert !IsSiblingCombinator(inner[if sb && (rel.Descendant? || rel.Child?) then 1 else 0]);
    }
    if sb {
      assert IsSiblingCombinator(inner[if d && (rel.NextSibling? || rel.LaterSibling?) then 1 else 0]);
    }
  }

  /** The hints that look at an element of the clan. */
  lemma WhoLooks(hint: MatchHint, x: nat)
    requires IsTree(CLAN) && 2 <= x < 10
    ensures InHint(CLAN, hint, ANCHOR, x)
            <==> match hint
                 case InChild => x == 2 || x == 5
                 case InSubtree => x <= 5
                 case InNextSibling => x == 6
                 case InNextSiblingSubtree => x == 7
                 case InSibling => x == 6 || x == 8
                 case InSiblingSubtree => x == 7 || x == 9
  {
    ClanTies();
    ClanChains();
    ClanSiblings();
    ClanNeighbours();
    assert 1 in [1, 0] && 1 in [2, 1, 0] && 6 in [6, 0] && 8 in [8, 0];
    if hint.InSiblingSubtree? {
      assert Siblings(CLAN, 6, 1) && Siblings(CLAN, 8, 1);
    }
  }

  lemma WiderHints()
    ensures Covers(InSubtree, InChild) && Covers(InSibling, InNextSibling)
    ensures Covers(InSiblingSubtree, InNextSiblingSubtree)
  {
    forall t: Tree, a: nat, x: nat | IsElement(t, a) && IsElement(t, x) && InHint(t, InChild, a, x)
      ensures InHint(t, InSubtree, a, x)
    {
      assert Ancestors(t, x)[0] == a;
    }
  }

  /** The relative combinator is `rel`, and of the others some lead down or sideways. */
  ghost predicate IsOfKind(rel: Combinator, d: bool, sb: bool, s: seq<Component>) {
    && EndsWithAnchor(s) && s[|s| - 2] == CombinatorItem(rel)
    && (HasDescendantCombinator(s[..|s| - 2]) <==> d) && (HasSiblingCombinator(s[..|s| - 2]) <==> sb)
  }

  lemma WayHasKind(rel: Combinator, d: bool, sb: bool)
    ensures IsOfKind(rel, d, sb, Starred(Way(rel, d, sb).0))
  {
    WayIsOfKind(rel, d, sb);
    StarredCombinators(Way(rel, d, sb).0);
  }

  lemma HintOfKind(rel: Combinator, d: bool, sb: bool, s: seq<Component>)
    requires IsOfKind(rel, d, sb, s)
    ensures HintOf(s) == NewMatchHint(rel, d, sb)
  {
  }

  /** The selector has the combinators asked for, it matches an element, and every hint that
      would still find that one is at least as wide as the hint the selector gets. */
  ghost predicate NeedsItsHint(rel: Combinator, d: bool, sb: bool, s: seq<Component>, x: nat)
    requires IsTree(CLAN)
  {
    && IsOfKind(rel, d, sb, s)
    && IsElement(CLAN, x) && SelVal(InClan(), s, x).True?
    && forall hint | LooksAt(hint, x) :: Covers(hint, HintOf(s))
  }

  ghost predicate LooksAt(hint: MatchHint, x: nat)
    requires IsTree(CLAN) && IsElement(CLAN, x)
  {
    IsElement(CLAN, ANCHOR) && InHint(CLAN, hint, ANCHOR, x)
  }

  lemma OnlyWideHintsLook(rel: Combinator, d: bool, sb: bool, hint: MatchHint)
    requires IsTree(CLAN) && var x := Way(rel, d, sb).1[0]; IsElement(CLAN, x) && LooksAt(hint, x)
    ensures Covers(hint, NewMatchHint(rel, d, sb))
  {
    WhoLooks(hint, Way(rel, d, sb).1[0]);
    WiderHints();
  }

  lemma HintsAreTight(rel: Combinator, d: bool, sb: bool) returns (s: seq<Component>, x: nat)
    ensures IsTree(CLAN) && NeedsItsHint(rel, d, sb, s, x)
  {
    var (combs, f) := Way(rel, d, sb);
    s, x := Starred(combs), f[0];
    ClanTies();
    WayMatches(rel, d, sb);
    WayHasKind(rel, d, sb);
    HintOfKind(rel, d, sb, s);
    forall hint | LooksAt(hint, x)
      ensures Covers(hint, HintOf(s))
    {
      OnlyWideHintsLook(rel, d, sb, hint);
    }
  }
}
