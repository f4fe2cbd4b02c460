/** querySelector and querySelectorAll: a plain walk that asks the matcher for every
    element, and the fast paths that use id lists, names and subtree filters.  Every
    path selects the same elements, in document order. */
module QuerySelector {
  import opened Dom
  import opened KleeneLogic
  import opened Selectors
  import opened Semantics
  import opened MatchResults
  import opened Layout
  import opened AncestorHashes
  import opened DomTraversal
  import opened MatchingEngine
  import opened NthIndexCache
  import NthSharing
  import SharedIndices

  /** What the embedder keeps up to date: lists of elements by id (when it has them),
      and for each element a filter of the names that occur in its subtree. */
  datatype Services = Services(
    idLists: (nat, Atom) -> Option<seq<nat>>,
    filterOf: nat -> bv64,
    hashOf: Atom -> bv64)

  predicate MayHave(services: Services, e: nat, name: Atom) {
    services.filterOf(e) & services.hashOf(name) == services.hashOf(name)
  }

  /** Local name, classes, and names of attributes without a namespace. */
  ghost predicate HasName(d: ElementData, name: Atom) {
    || d.localName == name
    || name in d.classes
    || HasAttrInNoNamespace(d, name)
  }

  /** No filter misses a name in the subtree it stands for. */
  ghost predicate FiltersAreSound(t: Tree, services: Services) {
    forall e: nat, y: nat, name: Atom | IsElement(t, e) && IsElement(t, y) && InScope(t, y, e)
      && HasName(Data(t, y), name) ::
      MayHave(services, e, name)
  }

  ghost predicate Increasing(l: seq<nat>) {
    forall i, j | 0 <= i < j < |l| :: l[i] < l[j]
  }

  ghost predicate IsIdList(t: Tree, document: nat, id: Atom, l: seq<nat>) {
    && Increasing(l)
    && (forall i | 0 <= i < |l| :: IsElement(t, l[i]) && RootOf(t, l[i]) == document && Data(t, l[i]).id == Some(id))
    && forall x: nat | IsElement(t, x) && RootOf(t, x) == document && Data(t, x).id == Some(id) :: x in l
  }

  /** A list, when there is one, holds exactly the document's elements with the id, in
      tree order. */
  ghost predicate IdListsAreExact(t: Tree, services: Services) {
    forall document: nat, id: Atom | document < |t.nodes| && services.idLists(document, id).Some? ::
      IsIdList(t, document, id, services.idLists(document, id).value)
  }

  /** The id of an element is the value of its `id` attribute, unless that is empty. */
  ghost predicate IdIsAttribute(d: ElementData) {
    forall i | 0 <= i < |d.attrs| && d.attrs[i].ns == "" && d.attrs[i].name == "id" ::
      d.id == if d.attrs[i].value == "" then None else Some(d.attrs[i].value)
  }

  ghost predicate IdsAreAttributes(t: Tree) {
    forall e: nat | IsElement(t, e) :: IdIsAttribute(Data(t, e))
  }

  /** The premises under which the fast paths are trusted. */
  ghost predicate Trusted(t: Tree, services: Services) {
    && InDocumentOrder(t)
    && FiltersAreSound(t, services)
    && IdListsAreExact(t, services)
  }

  // ------------------------------------------------------------ the results

  /** Results of `querySelectorAll`, or of `querySelector`, which keeps the first. */
  class QueryResults {
    const first: bool
    var elements: seq<nat>

    constructor (first: bool)
      ensures this.first == first && elements == []
    {
      this.first, elements := first, [];
    }

    method Append(e: nat)
      modifies this
      ensures elements == Extended(first, old(elements), [e])
    {
      if !first {
        elements := elements + [e];
      } else if elements == [] {
        elements := [e];
      }
    }
  }

  function Extended(first: bool, elements: seq<nat>, more: seq<nat>): seq<nat> {
    if !first then elements + more
    else if elements == [] && more != [] then [more[0]]
    else elements
  }

  // -------------------------------------------------------------- filtering

  datatype Operation = Reject | Accept | RejectSkippingChildren

  /** What decides about one element: a subtree can be left out when none of `names`
      occurs in it; the element must pass `test`; when given, match a list; and, when
      given, have an ancestor with an id. */
  datatype ElementFilter =
    ElementFilter(names: seq<Atom>, test: Component, selectors: Option<SelectorList>, under: Option<Atom>)

  /** The id test of the fast paths for the ancestors of an element. */
  ghost predicate HasIdAbove(c: Context, e: nat, id: Atom)
    requires IsElement(c.tree, e)
  {
    exists z :: z in Ancestors(c.tree, e) && IsElement(c.tree, z) && HasId(Data(c.tree, z), id, IdClassCase(c.quirks))
  }

  ghost predicate Matches(c: Context, list: SelectorList, e: nat)
    requires IsElement(c.tree, e)
  {
    exists i | 0 <= i < |list| :: !SelVal(c, list[i].components, e).False?
  }

  ghost predicate Accepts(c: Context, f: ElementFilter, e: nat)
    requires IsElement(c.tree, e) && IsLeaf(f.test)
  {
    && LeafMatches(c.quirks, f.test, Data(c.tree, e))
    && (f.selectors.Some? ==> Matches(c, f.selectors.value, e))
    && (f.under.Some? ==> HasIdAbove(c, e, f.under.value))
  }

  /** Elements below `root`, from `lo` on, that the filter accepts. */
  ghost function SelectedFrom(c: Context, f: ElementFilter, root: nat, lo: nat): seq<nat>
    requires IsLeaf(f.test)
    decreases |c.tree.nodes| - lo
  {
    if |c.tree.nodes| <= lo then []
    else (if Wanted(c, f, root, lo) then [lo] else []) + SelectedFrom(c, f, root, lo + 1)
  }

  ghost predicate Wanted(c: Context, f: ElementFilter, root: nat, x: nat)
    requires IsLeaf(f.test)
  {
    IsElement(c.tree, x) && Below(c.tree, x, root) && Accepts(c, f, x)
  }

  function PlainFilter(list: SelectorList): (f: ElementFilter)
    ensures IsLeaf(f.test)
  {
    ElementFilter([], ExplicitUniversalType, Some(list), None)
  }

  /** What a query has to find: all matching elements below `root`, in tree order. */
  ghost function Selected(c: Context, list: SelectorList, root: nat): seq<nat> {
    SelectedFrom(c, PlainFilter(list), root, 0)
  }

  lemma {:induction false} SelectedSkips(c: Context, f: ElementFilter, root: nat, lo: nat, hi: nat)
    requires IsLeaf(f.test) && lo <= hi
    requires forall x: nat | lo <= x < hi :: !Wanted(c, f, root, x)
    ensures SelectedFrom(c, f, root, lo) == SelectedFrom(c, f, root, hi)
    decreases hi - lo
  {
    if lo < hi {
      assert !Wanted(c, f, root, lo);
      SelectedSkips(c, f, root, lo + 1, hi);
    }
  }

  /** Filters that accept the same elements select the same sequence. */
  lemma {:induction false} SameSelected(c: Context, f: ElementFilter, root: nat, g: ElementFilter, other: nat, lo: nat)
    requires IsLeaf(f.test) && IsLeaf(g.test)
    requires forall x: nat :: Wanted(c, f, root, x) <==> Wanted(c, g, other, x)
    ensures SelectedFrom(c, f, root, lo) == SelectedFrom(c, g, other, lo)
    decreases |c.tree.nodes| - lo
  {
    if lo < |c.tree.nodes| {
      assert Wanted(c, f, root, lo) <==> Wanted(c, g, other, lo);
      SameSelected(c, f, root, g, other, lo + 1);
    }
  }

  /** The first selected element is the least one that is wanted. */
  lemma {:induction false} SelectedHead(c: Context, f: ElementFilter, root: nat, lo: nat)
    requires IsLeaf(f.test)
    ensures var s := SelectedFrom(c, f, root, lo);
            if s == [] then forall x: nat | lo <= x :: !Wanted(c, f, root, x)
            else lo <= s[0] && Wanted(c, f, root, s[0]) && forall x: nat | lo <= x < s[0] :: !Wanted(c, f, root, x)
    decreases |c.tree.nodes| - lo
  {
    if lo < |c.tree.nodes| {
      SelectedHead(c, f, root, lo + 1);
      var rest := SelectedFrom(c, f, root, lo + 1);
      if Wanted(c, f, root, lo) {
        assert SelectedFrom(c, f, root, lo) == [lo] + rest;
      } else {
        assert SelectedFrom(c, f, root, lo) == rest;
      }
    }
  }

  lemma ExtendedTwice(first: bool, elements: seq<nat>, x: nat, more: seq<nat>)
    ensures Extended(first, Extended(first, elements, [x]), more) == Extended(first, elements, [x] + more)
    ensures first ==> Extended(first, elements, [x] + more) == Extended(first, elements, [x])
  {
    assert elements + [x] + more == elements + ([x] + more);
  }

  /** A subtree without any of the names holds no element the filter accepts. */
  ghost predicate SkipIsSound(c: Context, f: ElementFilter)
    requires IsLeaf(f.test)
  {
    f.names != [] ==>
      forall d: ElementData | LeafMatches(c.quirks, f.test, d) ::
        exists i | 0 <= i < |f.names| :: HasName(d, f.names[i])
  }

  predicate Skips(services: Services, f: ElementFilter, e: nat) {
    f.names != [] && forall i | 0 <= i < |f.names| :: !MayHave(services, e, f.names[i])
  }

  lemma NothingWantedBelow(c: Context, services: Services, f: ElementFilter, root: nat, e: nat, x: nat)
    requires IsLeaf(f.test) && SkipIsSound(c, f) && FiltersAreSound(c.tree, services)
    requires IsElement(c.tree, e) && Skips(services, f, e) && InScope(c.tree, x, e)
    ensures !Wanted(c, f, root, x)
  {
    forall i | 0 <= i < |f.names|
      ensures IsElement(c.tree, x) ==> !HasName(Data(c.tree, x), f.names[i])
    {
    }
  }

  // ------------------------------------------------- names and ids to look for

  /** Names one of which every element passing the test carries; none when nothing can
      be told.  Attribute names that differ from their lower case are not looked up. */
  function NamesFor(quirks: bool, test: Component): seq<Atom> {
    match test
    case Class(class_) => if quirks then [] else [class_]
    case LocalName(name, lower) => [name, lower]
    case AttributeInNoNamespaceExists(name, lower) => if name == lower then [name] else []
    case AttributeInNoNamespace(name, _, _, _) => [name]
    case _ => []
  }

  lemma NamesAreCarried(c: Context, f: ElementFilter)
    requires IsLeaf(f.test) && f.names == NamesFor(c.quirks, f.test)
    ensures SkipIsSound(c, f)
  {
    forall d: ElementData | f.names != [] && LeafMatches(c.quirks, f.test, d)
      ensures HasName(d, f.names[0]) || (|f.names| == 2 && HasName(d, f.names[1]))
    {
      if f.test.Class? {
        var i :| 0 <= i < |d.classes| && CaseEq(CaseSensitive, d.classes[i], f.test.class_);
      }
    }
  }

  function GetAttrName(x: Component): Option<Atom> {
    match x
    case AttributeInNoNamespace(name, _, _, _) => Some(name)
    case AttributeInNoNamespaceExists(name, lower) => if name != lower then None else Some(name)
    case AttributeOther(constraint, name, lower, _) =>
      if constraint.Some? || name != lower then None else Some(name)
    case _ => None
  }

  function GetId(x: Component): Option<Atom> {
    match x
    case ID(id) => Some(id)
    case AttributeInNoNamespace(name, operator, value, _) =>
      if name != "id" || !operator.Equal? then None else Some(value)
    case _ => None
  }

  predicate HasLetter(v: string) {
    exists i | 0 <= i < |v| :: 'a' <= v[i] <= 'z' || 'A' <= v[i] <= 'Z'
  }

  predicate MayIgnoreCase(p: ParsedCaseSensitivity) {
    p.ExplicitInsensitive? || p.NoFlagInsensitiveIfHtml?
  }

  /** Looking an id up loses the case flag of `[id=v i]`, and no element has the id that
      `[id=""]` asks for. */
  predicate IdLookupIsExact(quirks: bool, x: Component) {
    x.AttributeInNoNamespace? ==> x.value != "" && (MayIgnoreCase(x.case_) && HasLetter(x.value) ==> quirks)
  }

  /** A component that is looked up by id, in the subject or further left. */
  datatype IdTest = IdTest(inSubject: bool, component: Component)

  /** The lookups that a scan from the right can get to: the first in the subject, which
      ends the scan, or those in compounds that an ancestor has to match. */
  function IdsReached(rest: seq<Component>, inSubject: bool): (tests: seq<IdTest>)
    ensures forall i | 0 <= i < |tests| :: GetId(tests[i].component).Some?
    decreases |rest|
  {
    if rest == [] then []
    else if rest[0].CombinatorItem? then IdsReached(Skipped(Some(rest[0].combinator), rest[1..]), false)
    else if GetId(rest[0]).None? then IdsReached(rest[1..], inSubject)
    else [IdTest(inSubject, rest[0])] + if inSubject then [] else IdsReached(rest[1..], false)
  }

  /** The id component of the subject, which every scan gets to. */
  function SubjectId(rest: seq<Component>): (x: Option<Component>)
    ensures x.Some? ==> GetId(x.value).Some?
    decreases |rest|
  {
    if rest == [] || rest[0].CombinatorItem? then None
    else if GetId(rest[0]).Some? then Some(rest[0])
    else SubjectId(rest[1..])
  }

  /** What a caller can check: a lone component is never looked up without its flag, and
      a list of several selectors never by id. */
  predicate IdLookupsAreExact(quirks: bool, list: SelectorList) {
    |list| == 1 && |list[0].components| > 1 ==>
      forall i | 0 <= i < |IdsReached(list[0].components, true)| ::
        IdLookupIsExact(quirks, IdsReached(list[0].components, true)[i].component)
  }

  /** The lookup covers every element the component matches. */
  ghost predicate IdLookupCovers(quirks: bool, x: Component)
    requires GetId(x).Some?
  {
    && IsLeaf(x)
    && forall d: ElementData | IdIsAttribute(d) && LeafMatches(quirks, x, d) ::
         HasId(d, GetId(x).value, IdClassCase(quirks))
  }

  lemma LowerIsInjectiveWithoutLetters(v: string, w: string)
    requires !HasLetter(v) && Lower(v) == Lower(w)
    ensures v == w
  {
    forall i | 0 <= i < |v|
      ensures v[i] == w[i]
    {
      assert Lower(v)[i] == LowerChar(v[i]) && Lower(w)[i] == LowerChar(w[i]);
    }
  }

  function OtherCase(ch: char): char {
    if 'A' <= ch <= 'Z' then (ch as int + 32) as char
    else if 'a' <= ch <= 'z' then (ch as int - 32) as char
    else ch
  }

  /** Exactly when the condition on the component holds. */
  lemma IdLookupCoversIffExact(quirks: bool, x: Component)
    requires GetId(x).Some?
    ensures IdLookupCovers(quirks, x) <==> IdLookupIsExact(quirks, x)
  {
    if x.AttributeInNoNamespace? {
      if IdLookupIsExact(quirks, x) {
        forall d: ElementData | IdIsAttribute(d) && LeafMatches(quirks, x, d)
          ensures HasId(d, x.value, IdClassCase(quirks))
        {
          var i :| 0 <= i < |d.attrs| && NamespaceAllows(SpecificNamespace(""), d.attrs[i].ns)
                   && d.attrs[i].name == "id"
                   && OperationAllows(d, WithValue(Equal, x.case_, x.value), d.attrs[i].value);
          assert d.attrs[i].value != "" ==> d.id == Some(d.attrs[i].value);
          if !HasLetter(x.value) && Lower(d.attrs[i].value) == Lower(x.value) {
            LowerIsInjectiveWithoutLetters(x.value, d.attrs[i].value);
          }
        }
      } else {
        MissedByIsMissed(x);
      }
    }
  }

  function FirstLetter(v: string): (i: nat)
    requires HasLetter(v)
    ensures i < |v| && ('a' <= v[i] <= 'z' || 'A' <= v[i] <= 'Z')
  {
    if 'a' <= v[0] <= 'z' || 'A' <= v[0] <= 'Z' then 0
    else
      assert HasLetter(v[1..]) by {
        var k :| 0 <= k < |v| && ('a' <= v[k] <= 'z' || 'A' <= v[k] <= 'Z');
        assert v[1..][k - 1] == v[k];
      }
      1 + FirstLetter(v[1..])
  }

  /** An element that the component matches and the lookup misses: its id differs in the
      case of a letter, or is empty. */
  function MissedBy(x: Component): ElementData
    requires GetId(x).Some? && !IdLookupIsExact(false, x)
  {
    if x.value == "" then
      ElementData("p", "", None, [], [Attribute("", "id", "")], true, false, false, false, false, {})
    else
      var i := FirstLetter(x.value);
      var w := x.value[i := OtherCase(x.value[i])];
      ElementData("p", "", Some(w), [], [Attribute("", "id", w)], true, false, false, false, false, {})
  }

  lemma MissedByIsMissed(x: Component)
    requires GetId(x).Some? && !IdLookupIsExact(false, x)
    ensures var d := MissedBy(x);
            && IdIsAttribute(d) && IsLeaf(x) && LeafMatches(false, x, d)
            && !HasId(d, GetId(x).value, IdClassCase(false))
            && (x.value == "" ==> !HasId(d, GetId(x).value, IdClassCase(true)))
  {
    var d := MissedBy(x);
    if x.value != "" {
      SameButForCase(x.value, FirstLetter(x.value));
    }
    assert NamespaceAllows(SpecificNamespace(""), d.attrs[0].ns);
    assert OperationAllows(d, WithValue(Equal, x.case_, x.value), d.attrs[0].value);
  }

  lemma SameButForCase(v: string, i: nat)
    requires i < |v| && ('a' <= v[i] <= 'z' || 'A' <= v[i] <= 'Z')
    ensures var w := v[i := OtherCase(v[i])]; w != v && w != "" && Lower(w) == Lower(v)
  {
    var w := v[i := OtherCase(v[i])];
    assert w[i] != v[i];
    assert forall k | 0 <= k < |v| :: Lower(w)[k] == Lower(v)[k];
  }

  // --------------------------------------------------------------- id lists

  function ListPosition(t: Tree, l: seq<nat>, n: nat): nat {
    if n < |l| then l[n] else |t.nodes|
  }

  function IdFilter(id: Atom, selectors: Option<SelectorList>): (f: ElementFilter)
    ensures IsLeaf(f.test)
  {
    ElementFilter([], ID(id), selectors, None)
  }

  lemma WantedIsListed(c: Context, id: Atom, selectors: Option<SelectorList>, root: nat, l: seq<nat>, x: nat)
    requires root < |c.tree.nodes| && !c.quirks && IsIdList(c.tree, RootOf(c.tree, root), id, l)
    requires Wanted(c, IdFilter(id, selectors), root, x)
    ensures x in l
  {
    BelowHasSameRoot(c.tree, x, root);
  }

  lemma ListedProgress(c: Context, id: Atom, selectors: Option<SelectorList>, root: nat, l: seq<nat>, n: nat,
                       first: bool, elements: seq<nat>)
    requires root < |c.tree.nodes| && !c.quirks && IsIdList(c.tree, RootOf(c.tree, root), id, l) && n < |l|
    ensures var f := IdFilter(id, selectors);
            var target := Extended(first, elements, SelectedFrom(c, f, root, l[n]));
            var rest := SelectedFrom(c, f, root, ListPosition(c.tree, l, n + 1));
            if Wanted(c, f, root, l[n]) then
              && target == Extended(first, Extended(first, elements, [l[n]]), rest)
              && (first ==> target == Extended(first, elements, [l[n]]))
            else target == Extended(first, elements, rest)
  {
    var f := IdFilter(id, selectors);
    ghost var all, rest := SelectedFrom(c, f, root, l[n]), SelectedFrom(c, f, root, ListPosition(c.tree, l, n + 1));
    assert all == if Wanted(c, f, root, l[n]) then [l[n]] + rest else rest by {
      ListStep(c, id, selectors, root, l, n);
      assert [] + rest == rest;
    }
    ExtendedTwice(first, elements, l[n], rest);
  }

  /** From one listed element to the next. */
  lemma ListStep(c: Context, id: Atom, selectors: Option<SelectorList>, root: nat, l: seq<nat>, n: nat)
    requires root < |c.tree.nodes| && !c.quirks && IsIdList(c.tree, RootOf(c.tree, root), id, l)
    requires n < |l|
    ensures var f := IdFilter(id, selectors);
            SelectedFrom(c, f, root, l[n])
            == (if Wanted(c, f, root, l[n]) then [l[n]] else [])
               + SelectedFrom(c, f, root, ListPosition(c.tree, l, n + 1))
  {
    var f := IdFilter(id, selectors);
    ghost var next := ListPosition(c.tree, l, n + 1);
    NoneListedBetween(c, id, selectors, root, l, n);
    SelectedSkips(c, f, root, l[n] + 1, next);
    SelectedStep(c, f, root, l[n]);
  }

  lemma NoneListedBetween(c: Context, id: Atom, selectors: Option<SelectorList>, root: nat, l: seq<nat>, n: nat)
    requires root < |c.tree.nodes| && !c.quirks && IsIdList(c.tree, RootOf(c.tree, root), id, l)
    requires n < |l|
    ensures l[n] + 1 <= ListPosition(c.tree, l, n + 1)
    ensures forall x: nat | l[n] + 1 <= x < ListPosition(c.tree, l, n + 1) ::
              !Wanted(c, IdFilter(id, selectors), root, x)
  {
    forall x: nat | l[n] + 1 <= x < ListPosition(c.tree, l, n + 1)
      ensures !Wanted(c, IdFilter(id, selectors), root, x)
    {
      if Wanted(c, IdFilter(id, selectors), root, x) {
        WantedIsListed(c, id, selectors, root, l, x);
        NotInGap(l, n, x, ListPosition(c.tree, l, n + 1));
      }
    }
  }

  lemma NotInGap(l: seq<nat>, n: nat, x: nat, next: nat)
    requires Increasing(l) && n < |l| && l[n] < x < next && (n + 1 < |l| ==> next == l[n + 1])
    ensures x !in l
  {
  }

  lemma SelectedStep(c: Context, f: ElementFilter, root: nat, x: nat)
    requires IsLeaf(f.test) && x < |c.tree.nodes|
    ensures SelectedFrom(c, f, root, x)
            == (if Wanted(c, f, root, x) then [x] else []) + SelectedFrom(c, f, root, x + 1)
  {
  }

  lemma ListStart(c: Context, id: Atom, selectors: Option<SelectorList>, root: nat, l: seq<nat>)
    requires root < |c.tree.nodes| && !c.quirks && IsIdList(c.tree, RootOf(c.tree, root), id, l)
    ensures var f := IdFilter(id, selectors);
            SelectedFrom(c, f, root, 0) == SelectedFrom(c, f, root, ListPosition(c.tree, l, 0))
  {
    var f := IdFilter(id, selectors);
    assert forall j | 0 <= j < |l| :: l[0] <= l[j];
    forall x: nat | x < ListPosition(c.tree, l, 0)
      ensures !Wanted(c, f, root, x)
    {
      if Wanted(c, f, root, x) {
        WantedIsListed(c, id, selectors, root, l, x);
      }
    }
    SelectedSkips(c, f, root, 0, ListPosition(c.tree, l, 0));
  }

  // ------------------------------------- reading a selector from the right

  /** Whatever matches the selector still matches from `rest` on: itself while the scan
      is in the subject compound, an ancestor of it afterwards. */
  ghost predicate StillNeeded(c: Context, s: seq<Component>, inSubject: bool, rest: seq<Component>) {
    forall e: nat | IsElement(c.tree, e) && !SelVal(c, s, e).False? && rest != [] ::
      NeededAt(c, inSubject, rest, e)
  }

  ghost predicate NeededAt(c: Context, inSubject: bool, rest: seq<Component>, e: nat)
    requires IsElement(c.tree, e)
  {
    if inSubject then !SelVal(c, rest, e).False?
    else exists z :: z in Ancestors(c.tree, e) && IsElement(c.tree, z) && !SelVal(c, rest, z).False?
  }

  /** Whatever matches the selector matches component `x`, itself or an ancestor. */
  ghost predicate ComponentNeeded(c: Context, s: seq<Component>, inSubject: bool, x: Component) {
    forall e: nat | IsElement(c.tree, e) && !SelVal(c, s, e).False? ::
      if inSubject then !SimpleVal(c, x, e).False?
      else exists z :: z in Ancestors(c.tree, e) && IsElement(c.tree, z) && !SimpleVal(c, x, z).False?
  }

  lemma ReadComponent(c: Context, s: seq<Component>, inSubject: bool, rest: seq<Component>)
    requires StillNeeded(c, s, inSubject, rest) && rest != [] && !rest[0].CombinatorItem?
    ensures ComponentNeeded(c, s, inSubject, rest[0]) && StillNeeded(c, s, inSubject, rest[1..])
  {
    forall e: nat | IsElement(c.tree, e) && !SelVal(c, s, e).False?
      ensures NeededAt(c, inSubject, rest[1..], e)
      ensures if inSubject then !SimpleVal(c, rest[0], e).False?
              else exists z :: z in Ancestors(c.tree, e) && IsElement(c.tree, z) && !SimpleVal(c, rest[0], z).False?
    {
      assert NeededAt(c, inSubject, rest, e);
      if inSubject {
        DropFirst(c, rest, e);
      } else {
        var z :| z in Ancestors(c.tree, e) && IsElement(c.tree, z) && !SelVal(c, rest, z).False?;
        DropFirst(c, rest, z);
      }
    }
  }

  function Skipped(comb: Option<Combinator>, rest: seq<Component>): seq<Component> {
    if comb.Some? && IsSiblingCombinator(comb.value) then SkipUntilAncestor(rest) else rest
  }

  lemma NextNeeded(c: Context, rest: seq<Component>, tail: seq<Component>, next: seq<Component>, a: nat)
    returns (z: nat)
    requires IsElement(c.tree, a) && rest != [] && rest[0].CombinatorItem? && tail == rest[1..]
    requires next == Skipped(Some(rest[0].combinator), tail) && next != [] && !SelVal(c, rest, a).False?
    ensures IsElement(c.tree, z) && z in Ancestors(c.tree, a) && !SelVal(c, next, z).False?
  {
    z := NeedsRelated(c, rest, a);
    if IsSiblingCombinator(rest[0].combinator) {
      SiblingsShareAncestors(c.tree, z, a);
      z := SkipSound(c, tail, z);
    } else {
      RelatedAncestor(c.tree, rest[0].combinator, z, a);
    }
  }

  lemma MoveToAncestors(c: Context, s: seq<Component>, inSubject: bool, rest: seq<Component>, tail: seq<Component>,
                        next: seq<Component>)
    requires StillNeeded(c, s, inSubject, rest) && rest != [] && rest[0].CombinatorItem? && tail == rest[1..]
    requires next == Skipped(Some(rest[0].combinator), tail)
    ensures StillNeeded(c, s, false, next)
  {
    if next != [] {
      forall e: nat | IsElement(c.tree, e) && !SelVal(c, s, e).False?
        ensures NeededAt(c, false, next, e)
      {
        assert NeededAt(c, inSubject, rest, e);
        if inSubject {
          var y := NextNeeded(c, rest, tail, next, e);
        } else {
          var z :| z in Ancestors(c.tree, e) && IsElement(c.tree, z) && !SelVal(c, rest, z).False?;
          var y := NextNeeded(c, rest, tail, next, z);
          AncestorTransitive(c.tree, e, z, y);
        }
      }
    }
  }

  /** The elements that pass the id test besides matching the selector. */
  function TestFilter(s: Selector, test: IdTest): (f: ElementFilter)
    requires GetId(test.component).Some?
    ensures IsLeaf(f.test) && f.selectors == Some([s])
  {
    var id := GetId(test.component).value;
    if test.inSubject then IdFilter(id, Some([s])) else PlainFilter([s]).(under := Some(id))
  }

  lemma IdComponentCarried(c: Context, x: Component, e: nat)
    requires IsElement(c.tree, e) && IdsAreAttributes(c.tree) && GetId(x).Some? && IdLookupIsExact(c.quirks, x)
    requires !SimpleVal(c, x, e).False?
    ensures HasId(Data(c.tree, e), GetId(x).value, IdClassCase(c.quirks))
  {
    IdLookupCoversIffExact(c.quirks, x);
  }

  lemma TestWants(c: Context, root: nat, s: Selector, test: IdTest, x: nat)
    requires GetId(test.component).Some?
    ensures Wanted(c, TestFilter(s, test), root, x)
            <==> && Wanted(c, PlainFilter([s]), root, x)
                 && var id := GetId(test.component).value;
                    if test.inSubject then HasId(Data(c.tree, x), id, IdClassCase(c.quirks)) else HasIdAbove(c, x, id)
  {
  }

  /** A component that every match needs, looked up exactly, loses nothing. */
  lemma ExactTestLosesNothing(c: Context, root: nat, s: Selector, test: IdTest)
    requires IdsAreAttributes(c.tree) && GetId(test.component).Some? && IdLookupIsExact(c.quirks, test.component)
    requires ComponentNeeded(c, s.components, test.inSubject, test.component)
    ensures SelectedFrom(c, TestFilter(s, test), root, 0) == Selected(c, [s], root)
  {
    var f, x := TestFilter(s, test), test.component;
    forall e: nat
      ensures Wanted(c, f, root, e) <==> Wanted(c, PlainFilter([s]), root, e)
    {
      TestWants(c, root, s, test, e);
      if Wanted(c, PlainFilter([s]), root, e) {
        assert !SelVal(c, [s][0].components, e).False?;
        if test.inSubject {
          IdComponentCarried(c, x, e);
        } else {
          var z :| z in Ancestors(c.tree, e) && IsElement(c.tree, z) && !SimpleVal(c, x, z).False?;
          IdComponentCarried(c, x, z);
        }
      }
    }
    SameSelected(c, f, root, PlainFilter([s]), root, 0);
  }

  lemma {:induction false} SelectedMembers(c: Context, f: ElementFilter, root: nat, lo: nat, x: nat)
    requires IsLeaf(f.test)
    ensures x in SelectedFrom(c, f, root, lo) <==> lo <= x && Wanted(c, f, root, x)
    decreases |c.tree.nodes| - lo
  {
    if lo < |c.tree.nodes| {
      SelectedMembers(c, f, root, lo + 1, x);
    }
  }

  /** The id test drops a result: some match, or, when only the first match is asked for
      and there is none yet, the first. */
  ghost predicate TestLoses(c: Context, root: nat, s: Selector, test: IdTest, first: bool, before: seq<nat>)
    requires GetId(test.component).Some?
  {
    var all := Selected(c, [s], root);
    if first then before == [] && all != [] && !Wanted(c, TestFilter(s, test), root, all[0])
    else exists x :: x in all && !Wanted(c, TestFilter(s, test), root, x)
  }

  lemma SamePrefix<T>(before: seq<T>, a: seq<T>, b: seq<T>)
    ensures before + a == before + b <==> a == b
  {
    assert a == (before + a)[|before|..] && b == (before + b)[|before|..];
  }

  /** The results with the id test are those without it exactly when it drops none. */
  lemma TestIsRightIff(c: Context, root: nat, s: Selector, test: IdTest, first: bool, before: seq<nat>)
    requires GetId(test.component).Some?
    ensures Extended(first, before, SelectedFrom(c, TestFilter(s, test), root, 0))
            == Extended(first, before, Selected(c, [s], root))
            <==> !TestLoses(c, root, s, test, first, before)
  {
    var f, g := TestFilter(s, test), PlainFilter([s]);
    var passing, all := SelectedFrom(c, f, root, 0), Selected(c, [s], root);
    forall x: nat
      ensures Wanted(c, f, root, x) ==> Wanted(c, g, root, x)
      ensures x in passing <==> Wanted(c, f, root, x)
      ensures x in all <==> Wanted(c, g, root, x)
    {
      TestWants(c, root, s, test, x);
      SelectedMembers(c, f, root, 0, x);
      SelectedMembers(c, g, root, 0, x);
    }
    SelectedHead(c, f, root, 0);
    SelectedHead(c, g, root, 0);
    if first {
      assert passing != [] ==> passing[0] in all;
      assert all != [] && Wanted(c, f, root, all[0]) ==> passing != [] && passing[0] == all[0];
    } else if !TestLoses(c, root, s, test, first, before) {
      SameSelected(c, f, root, g, root, 0);
    } else {
      var x :| x in all && !Wanted(c, f, root, x);
      assert x !in passing;
      SamePrefix(before, passing, all);
    }
  }

  /** A test on the subject that every match passes selects nothing less. */
  lemma TestIsImplied(c: Context, root: nat, s: Selector, names: seq<Atom>, test: Component)
    requires IsLeaf(test)
    requires forall e: nat | IsElement(c.tree, e) && !SelVal(c, s.components, e).False? ::
               LeafMatches(c.quirks, test, Data(c.tree, e))
    ensures SelectedFrom(c, ElementFilter(names, test, Some([s]), None), root, 0) == Selected(c, [s], root)
  {
    var f := ElementFilter(names, test, Some([s]), None);
    forall x: nat
      ensures Wanted(c, f, root, x) <==> Wanted(c, PlainFilter([s]), root, x)
    {
      if IsElement(c.tree, x) {
        assert Matches(c, [s], x) <==> !SelVal(c, [s][0].components, x).False?;
      }
    }
    SameSelected(c, f, root, PlainFilter([s]), root, 0);
  }

  lemma LeafSelVal(c: Context, s: seq<Component>, y: nat)
    requires |s| == 1 && IsLeaf(s[0]) && IsElement(c.tree, y)
    ensures SelVal(c, s, y) == FromBool(LeafMatches(c.quirks, s[0], Data(c.tree, y)))
  {
    CompoundLenUnique(s, 1);
    assert SimpleVal(c, s[0], y) == FromBool(LeafMatches(c.quirks, s[0], Data(c.tree, y)));
    assert forall i | 0 <= i < 1 :: s[i] == s[0];
  }

  /** A selector that is one leaf matches where the leaf does. */
  lemma LeafIsSelector(c: Context, root: nat, s: Selector, names: seq<Atom>)
    requires |s.components| == 1 && IsLeaf(s.components[0])
    ensures SelectedFrom(c, ElementFilter(names, s.components[0], None, None), root, 0) == Selected(c, [s], root)
  {
    var x := s.components[0];
    var f := ElementFilter(names, x, None, None);
    forall y: nat
      ensures Wanted(c, f, root, y) <==> Wanted(c, PlainFilter([s]), root, y)
    {
      if IsElement(c.tree, y) {
        LeafSelVal(c, s.components, y);
        assert Matches(c, [s], y) <==> !SelVal(c, [s][0].components, y).False?;
      }
    }
    SameSelected(c, f, root, PlainFilter([s]), root, 0);
  }

  // ------------------------------------------- subtrees of elements with an id

  /** The filter `u` wants what matches below `root` and lies below a listed element. */
  ghost predicate CoveredBy(c: Context, list: SelectorList, u: ElementFilter, root: nat, l: seq<nat>)
    requires IsLeaf(u.test)
  {
    forall x: nat ::
      Wanted(c, u, root, x)
      <==> Wanted(c, PlainFilter(list), root, x) && exists i :: 0 <= i < |l| && Below(c.tree, x, l[i])
  }

  lemma {:induction false} BelowIsAncestor(t: Tree, x: nat, a: nat)
    requires Below(t, x, a) && IsElement(t, a)
    ensures a in Ancestors(t, x)
  {
    var p := t.parents[x].value;
    if p != a {
      BelowIsAncestor(t, p, a);
    }
  }

  lemma IdCovers(c: Context, s: Selector, test: IdTest, root: nat, l: seq<nat>)
    requires GetId(test.component).Some? && !test.inSubject
    requires root < |c.tree.nodes| && !c.quirks
      && IsIdList(c.tree, RootOf(c.tree, root), GetId(test.component).value, l)
    ensures CoveredBy(c, [s], TestFilter(s, test), root, l)
  {
    var id := GetId(test.component).value;
    forall x: nat | IsElement(c.tree, x) && Below(c.tree, x, root)
      ensures HasIdAbove(c, x, id) <==> exists i :: 0 <= i < |l| && Below(c.tree, x, l[i])
    {
      BelowHasSameRoot(c.tree, x, root);
      if HasIdAbove(c, x, id) {
        var z :| z in Ancestors(c.tree, x) && IsElement(c.tree, z) && HasId(Data(c.tree, z), id, CaseSensitive);
        AncestorIsAbove(c.tree, x, z);
        BelowHasSameRoot(c.tree, x, z);
        assert z in l;
      }
      if i :| 0 <= i < |l| && Below(c.tree, x, l[i]) {
        BelowIsAncestor(c.tree, x, l[i]);
      }
    }
    forall x: nat
      ensures Wanted(c, TestFilter(s, test), root, x)
              <==> Wanted(c, PlainFilter([s]), root, x) && exists i :: 0 <= i < |l| && Below(c.tree, x, l[i])
    {
      TestWants(c, root, s, test, x);
    }
  }

  lemma NothingCovered(c: Context, list: SelectorList, u: ElementFilter, root: nat, l: seq<nat>)
    requires IsLeaf(u.test) && CoveredBy(c, list, u, root, l)
    requires forall i | 0 <= i < |l| :: Below(c.tree, l[i], root) && Selected(c, list, l[i]) == []
    ensures SelectedFrom(c, u, root, 0) == []
  {
    var f := PlainFilter(list);
    SelectedHead(c, u, root, 0);
    forall x: nat, i | 0 <= i < |l| && Below(c.tree, x, l[i])
      ensures !Wanted(c, f, root, x)
    {
      SelectedHead(c, f, l[i], 0);
      assert Wanted(c, f, root, x) ==> Wanted(c, f, l[i], x);
    }
  }

  lemma OneSubtree(c: Context, list: SelectorList, u: ElementFilter, root: nat, l: seq<nat>)
    requires IsLeaf(u.test) && |l| == 1 && CoveredBy(c, list, u, root, l) && Below(c.tree, l[0], root)
    ensures Selected(c, list, l[0]) == SelectedFrom(c, u, root, 0)
  {
    var f := PlainFilter(list);
    forall x: nat
      ensures Wanted(c, f, l[0], x) <==> Wanted(c, u, root, x)
    {
      if Wanted(c, f, l[0], x) {
        BelowTransitive(c.tree, x, l[0], root);
      }
    }
    SameSelected(c, f, l[0], u, root, 0);
  }

  /** The first non-empty subtree has the first element of all. */
  lemma FirstSubtree(c: Context, list: SelectorList, u: ElementFilter, root: nat, l: seq<nat>, n: nat)
    requires IsLeaf(u.test) && InDocumentOrder(c.tree) && Increasing(l) && CoveredBy(c, list, u, root, l)
    requires n < |l| && Below(c.tree, l[n], root) && Selected(c, list, l[n]) != []
    requires forall i | 0 <= i < n :: Selected(c, list, l[i]) == []
    ensures var all := SelectedFrom(c, u, root, 0); all != [] && all[0] == Selected(c, list, l[n])[0]
  {
    var f, h := PlainFilter(list), Selected(c, list, l[n])[0];
    SelectedHead(c, f, l[n], 0);
    SelectedHead(c, u, root, 0);
    WantedFromListed(c, list, u, root, l, n, h);
    var g := SelectedFrom(c, u, root, 0)[0];
    if g < h {
      var i := ListedAbove(c, list, u, root, l, g);
      NotBelowEarlier(c, list, root, l, n, g);
      WantedBetween(c, list, l[n], l[i], g, h);
      assert false;
    }
  }

  /** What is wanted below a listed element is wanted below the root. */
  lemma WantedFromListed(c: Context, list: SelectorList, u: ElementFilter, root: nat, l: seq<nat>, n: nat, x: nat)
    requires IsLeaf(u.test) && CoveredBy(c, list, u, root, l)
    requires n < |l| && Below(c.tree, l[n], root) && Wanted(c, PlainFilter(list), l[n], x)
    ensures Wanted(c, u, root, x)
  {
    BelowTransitive(c.tree, x, l[n], root);
    assert Wanted(c, PlainFilter(list), root, x);
  }

  lemma ListedAbove(c: Context, list: SelectorList, u: ElementFilter, root: nat, l: seq<nat>, x: nat) returns (i: nat)
    requires IsLeaf(u.test) && CoveredBy(c, list, u, root, l) && Wanted(c, u, root, x)
    ensures i < |l| && Below(c.tree, x, l[i]) && Wanted(c, PlainFilter(list), root, x)
  {
    i :| 0 <= i < |l| && Below(c.tree, x, l[i]);
  }

  /** Between a listed element and one wanted below it, everything lies below it. */
  lemma WantedBetween(c: Context, list: SelectorList, a: nat, b: nat, g: nat, h: nat)
    requires InDocumentOrder(c.tree) && a <= b && Below(c.tree, g, b) && g < h
    requires Wanted(c, PlainFilter(list), a, h) && IsElement(c.tree, g) && Accepts(c, PlainFilter(list), g)
    ensures Wanted(c, PlainFilter(list), a, g)
  {
    BelowIsLater(c.tree, g, b);
    BelowIsConvex(c.tree, h, g, a);
  }

  /** What is wanted does not lie in a listed subtree without matches. */
  lemma NotBelowEarlier(c: Context, list: SelectorList, root: nat, l: seq<nat>, n: nat, g: nat)
    requires n <= |l| && Wanted(c, PlainFilter(list), root, g)
    requires forall i | 0 <= i < n :: Selected(c, list, l[i]) == []
    ensures forall k | 0 <= k < n :: !Below(c.tree, g, l[k])
  {
    forall k | 0 <= k < n
      ensures !Below(c.tree, g, l[k])
    {
      SelectedHead(c, PlainFilter(list), l[k], 0);
      assert Below(c.tree, g, l[k]) ==> Wanted(c, PlainFilter(list), l[k], g);
    }
  }

  /** A slow query below one of several listed elements, for the first match. */
  lemma FirstMatchUnder(c: Context, list: SelectorList, u: ElementFilter, root: nat, l: seq<nat>, n: nat,
                        elements: seq<nat>)
    requires IsLeaf(u.test) && InDocumentOrder(c.tree) && Increasing(l) && CoveredBy(c, list, u, root, l)
    requires n < |l| && Below(c.tree, l[n], root)
    requires n > 0 ==> elements == [] && forall i | 0 <= i < n :: Selected(c, list, l[i]) == []
    ensures var after := Extended(true, elements, Selected(c, list, l[n]));
            if after == [] then elements == [] && Selected(c, list, l[n]) == []
            else after == Extended(true, elements, SelectedFrom(c, u, root, 0))
  {
    if elements == [] && Selected(c, list, l[n]) != [] {
      FirstSubtree(c, list, u, root, l, n);
    }
  }

  /** The first `n` listed subtrees have been searched: when only the first match is
      asked for, in vain. */
  ghost predicate SearchedBelow(c: Context, s: Selector, u: ElementFilter, root: nat, l: seq<nat>, n: nat, first: bool,
                                before: seq<nat>, after: seq<nat>)
    requires IsLeaf(u.test) && n <= |l|
  {
    && (forall i | 0 <= i < n :: Below(c.tree, l[i], root))
    && (if first then
          && after == before
          && (n > 0 ==> before == [])
          && forall i | 0 <= i < n :: Selected(c, [s], l[i]) == []
        else after == if n == 0 then before else before + SelectedFrom(c, u, root, 0))
  }

  lemma SearchFirst(c: Context, s: Selector, u: ElementFilter, root: nat, l: seq<nat>, n: nat, before: seq<nat>)
    requires IsLeaf(u.test) && InDocumentOrder(c.tree) && Increasing(l) && CoveredBy(c, [s], u, root, l)
    requires n < |l| && Below(c.tree, l[n], root) && SearchedBelow(c, s, u, root, l, n, true, before, before)
    ensures var after := Extended(true, before, Selected(c, [s], l[n]));
            if after != [] then after == Extended(true, before, SelectedFrom(c, u, root, 0))
            else SearchedBelow(c, s, u, root, l, n + 1, true, before, after)
  {
    FirstMatchUnder(c, [s], u, root, l, n, before);
  }

  lemma SearchOnly(c: Context, s: Selector, u: ElementFilter, root: nat, l: seq<nat>, before: seq<nat>)
    requires IsLeaf(u.test) && |l| == 1 && CoveredBy(c, [s], u, root, l) && Below(c.tree, l[0], root)
    ensures SearchedBelow(c, s, u, root, l, 1, false, before, Extended(false, before, Selected(c, [s], l[0])))
  {
    OneSubtree(c, [s], u, root, l);
  }

  /** What a component of the selector led to. */
  datatype Outcome = Finished | GaveUp | MovedOn

  /** What the scan has still to read are lookups of the whole; the subject's, while the
      scan is in it. */
  ghost predicate StillReached(s: seq<Component>, inSubject: bool, rest: seq<Component>) {
    if inSubject then IdsReached(rest, true) == IdsReached(s, true) && SubjectId(rest) == SubjectId(s)
    else SubjectId(s).None? && forall t | t in IdsReached(rest, false) :: t in IdsReached(s, true)
  }

  lemma ReachedStep(s: seq<Component>, inSubject: bool, rest: seq<Component>)
    requires StillReached(s, inSubject, rest) && rest != [] && !rest[0].CombinatorItem?
    ensures GetId(rest[0]).Some? ==>
              IdTest(inSubject, rest[0]) in IdsReached(s, true) && (inSubject ==> SubjectId(s) == Some(rest[0]))
    ensures !(inSubject && GetId(rest[0]).Some?) ==> StillReached(s, inSubject, rest[1..])
  {
    var all := IdsReached(rest, inSubject);
    if GetId(rest[0]).Some? {
      assert all[0] == IdTest(inSubject, rest[0]);
      assert !inSubject ==> all[1..] == IdsReached(rest[1..], false);
    }
  }

  lemma ReachedEnd(s: seq<Component>, inSubject: bool, rest: seq<Component>)
    requires StillReached(s, inSubject, rest) && (rest == [] || rest[0].CombinatorItem?)
    ensures SubjectId(s).None?
    ensures rest != [] ==> StillReached(s, false, Skipped(Some(rest[0].combinator), rest[1..]))
  {
  }

  lemma NothingReached(s: seq<Component>)
    requires |s| <= 1 && (s != [] ==> GetId(s[0]).None?)
    ensures IdsReached(s, true) == []
  {
  }

  /** How a scan ended, and what it did to the results. */
  ghost predicate Decided(c: Context, root: nat, s: Selector, first: bool, before: seq<nat>, after: seq<nat>,
                          outcome: Outcome, test: Option<IdTest>) {
    && (outcome.Finished? <==> test.Some?)
    && (SubjectId(s.components).Some? ==> test == Some(IdTest(true, SubjectId(s.components).value)))
    && if test.None? then after == before else DecidedBy(c, root, s, first, before, after, test.value)
  }

  /** A lookup that the scan can get to and every match needs decided the results. */
  ghost predicate DecidedBy(c: Context, root: nat, s: Selector, first: bool, before: seq<nat>, after: seq<nat>,
                            test: IdTest) {
    && test in IdsReached(s.components, true) && GetId(test.component).Some?
    && ComponentNeeded(c, s.components, test.inSubject, test.component)
    && after == Extended(first, before, SelectedFrom(c, TestFilter(s, test), root, 0))
  }

  ghost predicate Answers(c: Context, root: nat, list: SelectorList, first: bool, before: seq<nat>, after: seq<nat>,
                          test: Option<IdTest>) {
    if test.None? then after == Extended(first, before, Selected(c, list, root))
    else |list| == 1 && |list[0].components| > 1 && DecidedBy(c, root, list[0], first, before, after, test.value)
  }

  ghost predicate Loses(c: Context, root: nat, list: SelectorList, test: Option<IdTest>, first: bool, before: seq<nat>)
    requires list != []
  {
    test.Some? && GetId(test.value.component).Some? && TestLoses(c, root, list[0], test.value, first, before)
  }

  /** One selector of several components, with an id in its subject. */
  predicate SubjectDecides(list: SelectorList) {
    |list| == 1 && |list[0].components| > 1 && SubjectId(list[0].components).Some?
  }

  /** Fast is slow exactly when the deciding test drops nothing, which the component
      tells beforehand. */
  lemma AnswersAreRightIff(c: Context, root: nat, list: SelectorList, first: bool, before: seq<nat>, after: seq<nat>,
                           test: Option<IdTest>)
    requires list != [] && Answers(c, root, list, first, before, after, test)
    ensures after == Extended(first, before, Selected(c, list, root))
            <==> !Loses(c, root, list, test, first, before)
    ensures IdsAreAttributes(c.tree) && IdLookupsAreExact(c.quirks, list) ==>
              after == Extended(first, before, Selected(c, list, root))
  {
    if test.Some? {
      assert list == [list[0]];
      TestIsRightIff(c, root, list[0], test.value, first, before);
      if IdsAreAttributes(c.tree) && IdLookupIsExact(c.quirks, test.value.component) {
        ExactTestLosesNothing(c, root, list[0], test.value);
      }
    }
  }

  /** Cheap tests for the subject, tried when there is no useful id. */
  datatype SimpleFilter = ByClass(class_: Atom) | ByAttr(attrName: Atom) | ByLocalName(name: Atom, lower: Atom)

  function TestOf(f: SimpleFilter): (x: Component)
    ensures IsLeaf(x)
  {
    match f
    case ByClass(class_) => Class(class_)
    case ByAttr(name) => AttributeInNoNamespaceExists(name, name)
    case ByLocalName(name, lower) => LocalName(name, lower)
  }

  /** Every match passes the test of the filter. */
  ghost predicate FilterNeeded(c: Context, s: seq<Component>, f: Option<SimpleFilter>) {
    f.Some? ==>
      forall e: nat | IsElement(c.tree, e) && !SelVal(c, s, e).False? ::
        LeafMatches(c.quirks, TestOf(f.value), Data(c.tree, e))
  }

  /** The filter kept after looking at one more component of the subject. */
  function NextFilter(f: Option<SimpleFilter>, x: Component): Option<SimpleFilter> {
    match x
    case Class(class_) => Some(ByClass(class_))
    case LocalName(name, lower) => if f.Some? && f.value.ByClass? then f else Some(ByLocalName(name, lower))
    case _ => if f.None? && GetAttrName(x).Some? then Some(ByAttr(GetAttrName(x).value)) else f
  }

  lemma NextFilterNeeded(c: Context, s: seq<Component>, f: Option<SimpleFilter>, x: Component)
    requires FilterNeeded(c, s, f) && ComponentNeeded(c, s, true, x)
    ensures FilterNeeded(c, s, NextFilter(f, x))
  {
    var g := NextFilter(f, x);
    if g.Some? && g != f {
      forall e: nat | IsElement(c.tree, e) && !SelVal(c, s, e).False?
        ensures LeafMatches(c.quirks, TestOf(g.value), Data(c.tree, e))
      {
        assert !SimpleVal(c, x, e).False?;
        NextFilterHolds(c, f, x, e);
      }
    }
  }

  lemma NextFilterHolds(c: Context, f: Option<SimpleFilter>, x: Component, e: nat)
    requires IsElement(c.tree, e) && !SimpleVal(c, x, e).False?
    requires NextFilter(f, x).Some? && NextFilter(f, x) != f
    ensures LeafMatches(c.quirks, TestOf(NextFilter(f, x).value), Data(c.tree, e))
  {
  }

  /** Runs queries in one matching context. */
  class Query {
    const services: Services
    const context: MatchingContext

    constructor (services: Services, context: MatchingContext)
      ensures this.services == services && this.context == context
    {
      this.services, this.context := services, context;
    }

    ghost function State(): Context
      reads this, context
    {
      context.State()
    }

    ghost predicate Ready()
      reads this, context, context.cache
    {
      context.Ready() && Trusted(context.tree, services)
    }

    method ApplyFilter(f: ElementFilter, e: nat) returns (op: Operation)
      requires context.Ready() && IsLeaf(f.test) && f.under.None? && IsElement(context.tree, e)
      requires f.selectors.Some? ==> context.AcceptsList(f.selectors.value)
      modifies context, context.cache
      ensures State() == old(State()) && context.Ready()
      ensures op.RejectSkippingChildren? <==> Skips(services, f, e)
      ensures !Skips(services, f, e) ==> (op.Accept? <==> Accepts(State(), f, e))
    {
      if Skips(services, f, e) {
        return RejectSkippingChildren;
      }
      if !LeafMatches(context.quirks, f.test, Data(context.tree, e)) {
        return Reject;
      }
      if f.selectors.None? {
        return Accept;
      }
      var b := context.MatchesSelectorList(f.selectors.value, e);
      op := if b then Accept else Reject;
    }

    method CollectAllElements(root: nat, f: ElementFilter, results: QueryResults)
      requires Ready() && root < |context.tree.nodes|
      requires IsLeaf(f.test) && f.under.None? && SkipIsSound(State(), f)
      requires f.selectors.Some? ==> context.AcceptsList(f.selectors.value)
      modifies context, context.cache, results
      ensures State() == old(State()) && Ready()
      ensures results.elements == Extended(results.first, old(results.elements), SelectedFrom(old(State()), f, root, 0))
    {
      ghost var c := State();
      ghost var target := Extended(results.first, results.elements, SelectedFrom(c, f, root, 0));
      var iter := new DomDescendants(context.tree, root);
      var cur := iter.Next();
      NextSelected(c, f, root, root, cur);
      while cur.Some?
        invariant fresh(iter) && iter.Valid() && iter.previous == cur && iter.tree == context.tree && iter.scope == root
        invariant State() == c && Ready()
        invariant cur.Some? ==> Below(c.tree, cur.value, root)
        invariant Extended(results.first, results.elements, SelectedFrom(c, f, root, Position(c.tree, cur))) == target
        decreases |c.tree.nodes| - Position(c.tree, cur)
      {
        var done;
        cur, done := Visit(root, f, results, iter);
        if done {
          return;
        }
      }
    }

    method QuerySelectorSlow(root: nat, list: SelectorList, results: QueryResults)
      requires Ready() && root < |context.tree.nodes| && context.AcceptsList(list)
      modifies context, context.cache, results
      ensures State() == old(State()) && Ready()
      ensures results.elements == Extended(results.first, old(results.elements), Selected(old(State()), list, root))
    {
      CollectAllElements(root, PlainFilter(list), results);
    }

    method ConnectedElementIsDescendantOf(e: nat, root: nat) returns (b: bool)
      requires IsElement(context.tree, e) && root < |context.tree.nodes|
      requires RootOf(context.tree, e) == RootOf(context.tree, root)
      ensures b <==> Below(context.tree, e, root)
    {
      var t := context.tree;
      if t.nodes[root].Document? {
        BelowRoot(t, e);
        return true;
      }
      var current: Option<nat> := t.parents[e];
      while current.Some?
        invariant current.Some? ==> current.value < |t.nodes|
        invariant Below(t, e, root) <==> current.Some? && (current.value == root || Below(t, current.value, root))
        decreases if current.Some? then current.value else -1
      {
        if current.value == root {
          return true;
        }
        current := t.parents[current.value];
      }
      b := false;
    }

    /** The id list for the document that `root` is in; there is none in quirks mode,
        outside a document, or when the embedder keeps none. */
    method FastConnectedElementsWithId(root: nat, id: Atom) returns (l: Option<seq<nat>>)
      requires IdListsAreExact(context.tree, services) && root < |context.tree.nodes|
      ensures l.Some? ==> !context.quirks && IsIdList(context.tree, RootOf(context.tree, root), id, l.value)
    {
      if context.quirks {
        return None;
      }
      var top := RootOf(context.tree, root);
      if context.tree.nodes[top].Document? {
        return services.idLists(top, id);
      }
      l := None;
    }

    /** Elements below `root` with the id that match the list, when one is given. */
    method CollectElementsWithId(root: nat, id: Atom, selectors: Option<SelectorList>, results: QueryResults)
      requires Ready() && root < |context.tree.nodes|
      requires selectors.Some? ==> context.AcceptsList(selectors.value)
      modifies context, context.cache, results
      ensures State() == old(State()) && Ready()
      ensures results.elements
              == Extended(results.first, old(results.elements),
                          SelectedFrom(old(State()), IdFilter(id, selectors), root, 0))
    {
      var l := FastConnectedElementsWithId(root, id);
      if l.None? {
        CollectAllElements(root, IdFilter(id, selectors), results);
        return;
      }
      CollectListed(root, id, selectors, l.value, results);
    }

    method CollectListed(root: nat, id: Atom, selectors: Option<SelectorList>, l: seq<nat>, results: QueryResults)
      requires context.Ready() && root < |context.tree.nodes|
      requires selectors.Some? ==> context.AcceptsList(selectors.value)
      requires !context.quirks && IsIdList(context.tree, RootOf(context.tree, root), id, l)
      modifies context, context.cache, results
      ensures State() == old(State()) && context.Ready()
      ensures results.elements
              == Extended(results.first, old(results.elements),
                          SelectedFrom(old(State()), IdFilter(id, selectors), root, 0))
    {
      ghost var c := State();
      ghost var f := IdFilter(id, selectors);
      ghost var target := Extended(results.first, results.elements, SelectedFrom(c, f, root, 0));
      ListStart(c, id, selectors, root, l);
      for n := 0 to |l|
        invariant State() == c && context.Ready()
        invariant Extended(results.first, results.elements, SelectedFrom(c, f, root, ListPosition(c.tree, l, n)))
          == target
      {
        ListedProgress(c, id, selectors, root, l, n, results.first, results.elements);
        var accepted := AcceptListed(root, id, selectors, l, n);
        if accepted {
          results.Append(l[n]);
          if results.first {
            return;
          }
        }
      }
    }

    method AcceptListed(root: nat, id: Atom, selectors: Option<SelectorList>, l: seq<nat>, n: nat)
      returns (accepted: bool)
      requires context.Ready() && root < |context.tree.nodes|
      requires selectors.Some? ==> context.AcceptsList(selectors.value)
      requires !context.quirks && IsIdList(context.tree, RootOf(context.tree, root), id, l) && n < |l|
      modifies context, context.cache
      ensures State() == old(State()) && context.Ready()
      ensures accepted <==> Wanted(old(State()), IdFilter(id, selectors), root, l[n])
    {
      accepted := ConnectedElementIsDescendantOf(l[n], root);
      if accepted && selectors.Some? {
        accepted := context.MatchesSelectorList(selectors.value, l[n]);
      }
    }

    /** A selector that is one simple selector; other kinds are declined. */
    method QuerySelectorSingle(root: nat, x: Component, results: QueryResults) returns (ok: bool)
      requires Ready() && root < |context.tree.nodes|
      modifies context, context.cache, results
      ensures State() == old(State()) && Ready()
      ensures !ok ==> results.elements == old(results.elements)
      ensures if ok then IsLeaf(x) else GetId(x).None?
      ensures ok ==> results.elements
                     == Extended(results.first, old(results.elements),
                                 SelectedFrom(old(State()), ElementFilter(NamesFor(context.quirks, x), x, None, None),
                                              root, 0))
    {
      match x {
        case ID(id) =>
          CollectElementsWithId(root, id, None, results);
          ok := true;
        case ExplicitUniversalType => ok := true;
        case Class(_) => ok := true;
        case LocalName(_, _) => ok := true;
        case AttributeInNoNamespaceExists(_, _) => ok := true;
        case AttributeInNoNamespace(_, _, _, _) => ok := true;
        case _ => ok := false;
      }
      if ok && !x.ID? {
        var f := ElementFilter(NamesFor(context.quirks, x), x, None, None);
        NamesAreCarried(State(), f);
        CollectAllElements(root, f, results);
      }
    }

    /** The next component, with what is left. */
    method ReadNext(iter: SelectorIter, ghost rest: seq<Component>)
      returns (x: Option<Component>, ghost tail: seq<Component>)
      requires iter.Valid() && iter.nextCombinator.None? && rest == iter.Rest()
      modifies iter
      ensures iter.Valid() && tail == iter.Rest() && |tail| <= |rest|
      ensures x.Some? ==> rest != [] && rest[0] == x.value && tail == rest[1..] && |tail| < |rest|
      ensures x.Some? ==> !x.value.CombinatorItem? && x.value in iter.items && iter.nextCombinator.None?
      ensures x.None? && iter.nextCombinator.Some? ==>
                && rest != [] && rest[0] == CombinatorItem(iter.nextCombinator.value)
                && tail == rest[1..] && |tail| < |rest|
      ensures x.None? ==> rest == [] || rest[0].CombinatorItem?
    {
      assert rest != [] ==> rest[0] == iter.items[iter.pos];
      x := iter.Next();
      tail := iter.Rest();
    }

    /** Moves on to the next compound that an ancestor has to match. */
    method AdvanceToAncestor(iter: SelectorIter, ghost c: Context, ghost s: seq<Component>, ghost inSubject: bool,
                             ghost rest: seq<Component>, ghost tail: seq<Component>)
      returns (found: bool, ghost next: seq<Component>)
      requires iter.Valid() && tail == iter.Rest() && StillNeeded(c, s, inSubject, rest)
      requires iter.nextCombinator.Some? ==>
                 rest != [] && rest[0] == CombinatorItem(iter.nextCombinator.value) && tail == rest[1..]
      modifies iter
      ensures iter.Valid() && iter.nextCombinator.None? && next == iter.Rest()
      ensures found ==> StillNeeded(c, s, false, next) && |next| < |rest|
      ensures found ==> rest != [] && rest[0].CombinatorItem? && next == Skipped(Some(rest[0].combinator), rest[1..])
    {
      var combinator := iter.NextSequence();
      next := iter.Rest();
      if combinator.None? {
        return false, next;
      }
      if IsSiblingCombinator(combinator.value) {
        iter.SkipToAncestor();
      }
      next := iter.Rest();
      MoveToAncestors(c, s, inSubject, rest, tail, next);
      found := true;
    }

    /** An id further left: search only below the elements that have it. */
    method QueryByAncestorId(root: nat, s: Selector, test: IdTest, results: QueryResults) returns (outcome: Outcome)
      requires Ready() && root < |context.tree.nodes| && context.Accepts(s.components)
      requires GetId(test.component).Some? && !test.inSubject
      modifies context, context.cache, results
      ensures State() == old(State()) && Ready()
      ensures results.elements
              == if outcome.Finished? then
                   Extended(results.first, old(results.elements),
                            SelectedFrom(old(State()), TestFilter(s, test), root, 0))
                 else old(results.elements)
    {
      var l := FastConnectedElementsWithId(root, GetId(test.component).value);
      if l.None? {
        return GaveUp;
      }
      var elements := l.value;
      ghost var u := TestFilter(s, test);
      IdCovers(State(), s, test, root, elements);
      if elements == [] {
        NothingCovered(State(), [s], u, root, elements);
        return Finished;
      }
      if !results.first && |elements| > 1 {
        return MovedOn;
      }
      outcome := QueryBelowListed(root, s, u, elements, results);
    }

    method QueryBelowListed(root: nat, s: Selector, ghost u: ElementFilter, l: seq<nat>, results: QueryResults)
      returns (outcome: Outcome)
      requires Ready() && root < |context.tree.nodes| && context.Accepts(s.components)
      requires IsLeaf(u.test) && Increasing(l) && CoveredBy(State(), [s], u, root, l)
      requires l != [] && (results.first || |l| == 1)
      requires forall i | 0 <= i < |l| ::
        IsElement(context.tree, l[i]) && RootOf(context.tree, l[i]) == RootOf(context.tree, root)
      modifies context, context.cache, results
      ensures State() == old(State()) && Ready()
      ensures results.elements
              == if outcome.Finished? then
                   Extended(results.first, old(results.elements), SelectedFrom(old(State()), u, root, 0))
                 else old(results.elements)
    {
      for n := 0 to |l|
        invariant State() == old(State()) && Ready()
        invariant SearchedBelow(State(), s, u, root, l, n, results.first, old(results.elements), results.elements)
      {
        var below := ConnectedElementIsDescendantOf(l[n], root);
        if !below {
          return MovedOn;
        }
        if results.first {
          SearchFirst(State(), s, u, root, l, n, results.elements);
        } else {
          SearchOnly(State(), s, u, root, l, results.elements);
        }
        QuerySelectorSlow(l[n], [s], results);
        if results.first && results.elements != [] {
          return Finished;
        }
      }
      if results.first {
        NothingCovered(State(), [s], u, root, l);
      }
      outcome := Finished;
    }

    /** One component of the selector during the search for an id.  An id in the subject
        always ends the search. */
    method TryComponent(root: nat, s: Selector, x: Component, inSubject: bool, results: QueryResults)
      returns (outcome: Outcome)
      requires Ready() && root < |context.tree.nodes| && context.Accepts(s.components)
      modifies context, context.cache, results
      ensures State() == old(State()) && Ready()
      ensures outcome.Finished? ==> GetId(x).Some?
      ensures inSubject ==> (outcome.Finished? <==> GetId(x).Some?) && !outcome.GaveUp?
      ensures results.elements
              == if outcome.Finished? then
                   Extended(results.first, old(results.elements),
                            SelectedFrom(old(State()), TestFilter(s, IdTest(inSubject, x)), root, 0))
                 else old(results.elements)
    {
      var id := GetId(x);
      if id.None? {
        return MovedOn;
      }
      if inSubject {
        CollectElementsWithId(root, id.value, Some([s]), results);
        return Finished;
      }
      outcome := QueryByAncestorId(root, s, IdTest(false, x), results);
    }

    /** Looks for an id anywhere but left of a sibling combinator, and notes a cheap test
        for the subject on the way.  `test` is the lookup that ended the search. */
    method ScanSelector(root: nat, s: Selector, results: QueryResults)
      returns (outcome: Outcome, simpleFilter: Option<SimpleFilter>, ghost test: Option<IdTest>)
      requires Ready() && root < |context.tree.nodes| && context.Accepts(s.components)
      modifies context, context.cache, results
      ensures State() == old(State()) && Ready()
      ensures Decided(old(State()), root, s, results.first, old(results.elements), results.elements, outcome, test)
      ensures FilterNeeded(old(State()), s.components, simpleFilter)
    {
      var iter := new SelectorIter(s.components);
      var inSubject, more := true, true;
      outcome, simpleFilter, test := MovedOn, None, None;
      ghost var c, rest := State(), s.components;
      while more
        invariant fresh(iter) && iter.items == s.components && State() == c && Ready()
        invariant more ==> iter.Valid() && iter.nextCombinator.None? && rest == iter.Rest()
        invariant more ==> outcome.MovedOn? && StillNeeded(c, s.components, inSubject, rest)
        invariant more ==> StillReached(s.components, inSubject, rest) && results.elements == old(results.elements)
        invariant !more ==> Decided(c, root, s, results.first, old(results.elements), results.elements, outcome, test)
        invariant FilterNeeded(c, s.components, simpleFilter)
        decreases more, |rest|
      {
        outcome, more, inSubject, simpleFilter, rest, test :=
          ScanStep(root, s, iter, c, rest, inSubject, simpleFilter, results);
      }
    }

    /** One component, or the end of a compound. */
    method ScanStep(root: nat, s: Selector, iter: SelectorIter, ghost c: Context, ghost rest: seq<Component>,
                    inSubject: bool, f: Option<SimpleFilter>, results: QueryResults)
      returns (outcome: Outcome, more: bool, inSubject': bool, g: Option<SimpleFilter>, ghost rest': seq<Component>,
               ghost test: Option<IdTest>)
      requires Ready() && root < |context.tree.nodes| && context.Accepts(s.components)
      requires State() == c && iter.items == s.components
      requires iter.Valid() && iter.nextCombinator.None? && rest == iter.Rest()
      requires StillNeeded(c, s.components, inSubject, rest) && FilterNeeded(c, s.components, f)
      requires StillReached(s.components, inSubject, rest)
      modifies context, context.cache, results, iter
      ensures State() == c && Ready()
      ensures more ==> outcome.MovedOn? && iter.Valid() && iter.nextCombinator.None? && rest' == iter.Rest()
      ensures more ==> StillNeeded(c, s.components, inSubject', rest') && |rest'| < |rest|
      ensures more ==> StillReached(s.components, inSubject', rest') && results.elements == old(results.elements)
      ensures !more ==> Decided(c, root, s, results.first, old(results.elements), results.elements, outcome, test)
      ensures FilterNeeded(c, s.components, g)
    {
      var component, tail := ReadNext(iter, rest);
      g, inSubject', rest', test := f, inSubject, tail, None;
      if component.Some? {
        ReachedStep(s.components, inSubject, rest);
        outcome, g := ReadOne(root, s, c, rest, tail, component.value, inSubject, f, results);
        more := outcome.MovedOn?;
        if outcome.Finished? {
          test := Some(IdTest(inSubject, component.value));
        }
      } else {
        outcome := MovedOn;
        ReachedEnd(s.components, inSubject, rest);
        more, rest' := AdvanceToAncestor(iter, c, s.components, inSubject, rest, tail);
        inSubject' := false;
      }
    }

    /** One component: try its id, then remember it as a cheap test. */
    method ReadOne(root: nat, s: Selector, ghost c: Context, ghost rest: seq<Component>, ghost tail: seq<Component>,
                   x: Component,
                   inSubject: bool, f: Option<SimpleFilter>, results: QueryResults)
      returns (outcome: Outcome, g: Option<SimpleFilter>)
      requires Ready() && root < |context.tree.nodes| && context.Accepts(s.components)
      requires rest != [] && rest[0] == x && tail == rest[1..] && !x.CombinatorItem? && x in s.components
      requires State() == c
      requires StillNeeded(c, s.components, inSubject, rest) && FilterNeeded(c, s.components, f)
      modifies context, context.cache, results
      ensures State() == c && Ready()
      ensures outcome.Finished? ==> GetId(x).Some? && ComponentNeeded(c, s.components, inSubject, x)
      ensures inSubject ==> (outcome.Finished? <==> GetId(x).Some?) && !outcome.GaveUp?
      ensures results.elements
              == if outcome.Finished? then
                   Extended(results.first, old(results.elements),
                            SelectedFrom(c, TestFilter(s, IdTest(inSubject, x)), root, 0))
                 else old(results.elements)
      ensures FilterNeeded(c, s.components, g)
      ensures StillNeeded(c, s.components, inSubject, tail)
    {
      ReadComponent(c, s.components, inSubject, rest);
      outcome := TryComponent(root, s, x, inSubject, results);
      g := f;
      if outcome.MovedOn? && inSubject {
        NextFilterNeeded(c, s.components, f, x);
        g := NextFilter(f, x);
      }
    }

    /** The fast paths, for every selector list.  Failure leaves the results alone.
        Success means the right results, unless `test`, a lookup by id, decided: then
        those of them that pass the test.  An id in the subject always decides. */
    method QuerySelectorFast(root: nat, list: SelectorList, results: QueryResults)
      returns (ok: bool, ghost test: Option<IdTest>)
      requires Ready() && root < |context.tree.nodes| && list != [] && context.AcceptsList(list)
      modifies context, context.cache, results
      ensures State() == old(State()) && Ready()
      ensures if ok then Answers(old(State()), root, list, results.first, old(results.elements), results.elements, test)
              else test.None? && results.elements == old(results.elements)
      ensures SubjectDecides(list) ==> ok && test == Some(IdTest(true, SubjectId(list[0].components).value))
    {
      test := None;
      if |list| > 1 {
        return false, None;
      }
      var s := list[0];
      assert list == [s];
      if |s.components| == 1 {
        ok := QuerySelectorSingle(root, s.components[0], results);
        if ok {
          LeafIsSelector(State(), root, s, NamesFor(context.quirks, s.components[0]));
          return;
        }
      }
      if |s.components| <= 1 {
        NothingReached(s.components);
      }
      var outcome, simpleFilter;
      outcome, simpleFilter, test := ScanSelector(root, s, results);
      if outcome.Finished? {
        return true, test;
      }
      if outcome.GaveUp? || simpleFilter.None? {
        return false, None;
      }
      var filterTest := TestOf(simpleFilter.value);
      var f := ElementFilter(NamesFor(context.quirks, filterTest), filterTest, Some(list), None);
      NamesAreCarried(State(), f);
      TestIsImplied(State(), root, s, f.names, filterTest);
      CollectAllElements(root, f, results);
      ok := true;
    }

    /** The whole query, without the invalidation machinery.  It is right unless the test
        by which a lookup decided drops a result, and always when every lookup that the
        scan can get to is exact. */
    method QuerySelector(root: nat, list: SelectorList, results: QueryResults) returns (ghost test: Option<IdTest>)
      requires Ready() && root < |context.tree.nodes| && list != [] && context.AcceptsList(list)
      modifies context, context.cache, results
      ensures State() == old(State()) && Ready()
      ensures Answers(old(State()), root, list, results.first, old(results.elements), results.elements, test)
      ensures SubjectDecides(list) ==> test == Some(IdTest(true, SubjectId(list[0].components).value))
      ensures results.elements == Extended(results.first, old(results.elements), Selected(old(State()), list, root))
              <==> !Loses(old(State()), root, list, test, results.first, old(results.elements))
      ensures IdsAreAttributes(context.tree) && IdLookupsAreExact(context.quirks, list) ==>
                results.elements == Extended(results.first, old(results.elements), Selected(old(State()), list, root))
    {
      var ok;
      ok, test := QuerySelectorFast(root, list, results);
      if !ok {
        QuerySelectorSlow(root, list, results);
      }
      AnswersAreRightIff(old(State()), root, list, results.first, old(results.elements), results.elements, test);
    }

    /** One round of the walk: decide about the current node and move on. */
    method Visit(root: nat, f: ElementFilter, results: QueryResults, iter: DomDescendants)
      returns (next: Option<nat>, done: bool)
      requires context.Ready() && FiltersAreSound(context.tree, services) && iter.Valid() && iter.tree == context.tree
      requires iter.scope == root
      requires iter.previous.Some? && Below(context.tree, iter.previous.value, root)
      requires IsLeaf(f.test) && f.under.None? && SkipIsSound(State(), f)
      requires f.selectors.Some? ==> context.AcceptsList(f.selectors.value)
      modifies context, context.cache, results, iter
      ensures State() == old(State()) && context.Ready() && iter.Valid() && (!done ==> iter.previous == next)
      ensures Progress(old(State()), f, root, results.first, old(results.elements), old(iter.previous).value,
                       results.elements, next, done)
    {
      var node := iter.previous.value;
      done := false;
      if !IsElement(context.tree, node) {
        next := iter.Next();
        PassedOver(State(), f, root, results.first, results.elements, node, next);
        return;
      }
      var op := ApplyFilter(f, node);
      if op.RejectSkippingChildren? {
        next := iter.NextSkippingChildren();
        SubtreeSkipped(State(), services, f, root, results.first, results.elements, node, next);
        return;
      }
      ghost var before := results.elements;
      if op.Accept? {
        results.Append(node);
        if results.first {
          Accepted(State(), f, root, true, before, node, None, true);
          return None, true;
        }
      }
      next := iter.Next();
      if op.Accept? {
        Accepted(State(), f, root, results.first, before, node, next, false);
      } else {
        PassedOver(State(), f, root, results.first, results.elements, node, next);
      }
    }
  }

  /** What one round of the walk has to achieve, from node `from` on. */
  ghost predicate Progress(c: Context, f: ElementFilter, root: nat, first: bool, before: seq<nat>, from: nat,
                           after: seq<nat>, next: Option<nat>, done: bool)
    requires IsLeaf(f.test)
  {
    && Extended(first, before, SelectedFrom(c, f, root, from))
       == (if done then after else Extended(first, after, SelectedFrom(c, f, root, Position(c.tree, next))))
    && (!done && next.Some? ==> from < next.value && Below(c.tree, next.value, root))
  }

  lemma PassedOver(c: Context, f: ElementFilter, root: nat, first: bool, elements: seq<nat>, n: nat, next: Option<nat>)
    requires IsLeaf(f.test) && n < |c.tree.nodes| && IsNext(c.tree, n, root, next) && !Wanted(c, f, root, n)
    ensures Progress(c, f, root, first, elements, n, elements, next, false)
  {
    NextSelected(c, f, root, n, next);
  }

  lemma SubtreeSkipped(c: Context, services: Services, f: ElementFilter, root: nat, first: bool, elements: seq<nat>,
                       n: nat, next: Option<nat>)
    requires IsLeaf(f.test) && SkipIsSound(c, f) && FiltersAreSound(c.tree, services)
    requires IsElement(c.tree, n) && Skips(services, f, n) && IsNextSkipping(c.tree, n, root, next)
    ensures Progress(c, f, root, first, elements, n, elements, next, false)
  {
    SkippedSelected(c, services, f, root, n, next);
  }

  lemma Accepted(c: Context, f: ElementFilter, root: nat, first: bool, before: seq<nat>, n: nat, next: Option<nat>,
                 done: bool)
    requires IsLeaf(f.test) && n < |c.tree.nodes| && Wanted(c, f, root, n)
    requires if done then first else IsNext(c.tree, n, root, next)
    ensures Progress(c, f, root, first, before, n, Extended(first, before, [n]), next, done)
  {
    ExtendedTwice(first, before, n, SelectedFrom(c, f, root, n + 1));
    if !done {
      NextSelected(c, f, root, n, next);
    }
  }

  ghost function Position(t: Tree, cur: Option<nat>): nat {
    if cur.Some? then cur.value else |t.nodes|
  }

  /** Between a node and the next one there is nothing to select. */
  lemma NextSelected(c: Context, f: ElementFilter, root: nat, n: nat, next: Option<nat>)
    requires IsLeaf(f.test) && n < |c.tree.nodes| && IsNext(c.tree, n, root, next)
    ensures next.Some? ==> n < next.value
    ensures SelectedFrom(c, f, root, n + 1) == SelectedFrom(c, f, root, Position(c.tree, next))
    ensures n == root ==> SelectedFrom(c, f, root, 0) == SelectedFrom(c, f, root, Position(c.tree, next))
    ensures !Wanted(c, f, root, n) ==> SelectedFrom(c, f, root, n) == SelectedFrom(c, f, root, Position(c.tree, next))
  {
    forall x: nat | n < x < Position(c.tree, next)
      ensures !Wanted(c, f, root, x)
    {
    }
    SelectedSkips(c, f, root, n + 1, Position(c.tree, next));
    if n == root {
      forall x: nat | x < root + 1
        ensures !Wanted(c, f, root, x)
      {
        if Below(c.tree, x, root) {
          BelowIsLater(c.tree, x, root);
        }
      }
      SelectedSkips(c, f, root, 0, root + 1);
    }
  }

  lemma SkippedSelected(c: Context, services: Services, f: ElementFilter, root: nat, n: nat, next: Option<nat>)
    requires IsLeaf(f.test) && SkipIsSound(c, f) && FiltersAreSound(c.tree, services)
    requires IsElement(c.tree, n) && Skips(services, f, n) && IsNextSkipping(c.tree, n, root, next)
    ensures next.Some? ==> n < next.value
    ensures SelectedFrom(c, f, root, n) == SelectedFrom(c, f, root, Position(c.tree, next))
  {
    forall x: nat | n <= x < Position(c.tree, next)
      ensures !Wanted(c, f, root, x)
    {
      if Wanted(c, f, root, x) {
        NothingWantedBelow(c, services, f, root, n, x);
      }
    }
    SelectedSkips(c, f, root, n, Position(c.tree, next));
  }

  // --------------------------------------- every inexact lookup loses something

  /** A document with one element. */
  function OneElement(d: ElementData): (t: TreeData)
    ensures IsTree(t) && InDocumentOrder(t)
  {
    TreeData([Document, Element(d)], [None, Some(0)])
  }

  function ServicesFor(d: ElementData): Services {
    Services((document, id) => if document == 0 && d.id == Some(id) then Some([1]) else Some([]), e => 0, name => 0)
  }

  lemma OneElementTrusted(d: ElementData)
    requires IdIsAttribute(d)
    ensures Trusted(OneElement(d), ServicesFor(d)) && IdsAreAttributes(OneElement(d))
  {
    var t: Tree := OneElement(d);
    assert RootOf(t, 0) == 0 && RootOf(t, 1) == 0;
    forall document: nat, id: Atom | document < 2
      ensures IsIdList(t, document, id, ServicesFor(d).idLists(document, id).value)
    {
      assert 1 in [1];
    }
  }

  /** Components that any element can be made to match, whatever its id. */
  predicate Free(y: Component) {
    y.Class? || y.NonTSPseudoClass? || y.ExplicitUniversalType? || y.ExplicitAnyNamespace?
  }

  predicate AllFree(ys: seq<Component>) {
    forall i | 0 <= i < |ys| :: Free(ys[i])
  }

  /** One compound: `x` among free components, at position `n`. */
  function Compound(ys: seq<Component>, n: nat, x: Component): Selector
    requires n <= |ys|
  {
    Selector(ys[..n] + [x] + ys[n..], NO_FLAGS)
  }

  /** `d`, made to match the free components. */
  function Dressed(d: ElementData, ys: seq<Component>): ElementData {
    d.(classes := seq(|ys|, i requires 0 <= i < |ys| => if ys[i].Class? then ys[i].class_ else ""),
       states := set i | 0 <= i < |ys| && ys[i].NonTSPseudoClass? :: ys[i].state)
  }

  /** The element that the compound matches and the lookup misses. */
  function MissedIn(ys: seq<Component>, x: Component): ElementData
    requires GetId(x).Some? && !IdLookupIsExact(false, x)
  {
    Dressed(MissedBy(x), ys)
  }

  lemma DressedMatches(quirks: bool, d: ElementData, ys: seq<Component>, i: nat)
    requires AllFree(ys) && i < |ys|
    ensures IsLeaf(ys[i]) && LeafMatches(quirks, ys[i], Dressed(d, ys))
  {
    if ys[i].Class? {
      assert Dressed(d, ys).classes[i] == ys[i].class_;
    }
  }

  lemma MissedInIsMissed(quirks: bool, ys: seq<Component>, x: Component)
    requires GetId(x).Some? && !IdLookupIsExact(quirks, x)
    ensures var d := MissedIn(ys, x);
            && IdIsAttribute(d) && IsLeaf(x) && LeafMatches(quirks, x, d)
            && !HasId(d, GetId(x).value, IdClassCase(quirks))
  {
    var b, d := MissedBy(x), MissedIn(ys, x);
    MissedByIsMissed(x);
    assert OperationAllows(d, WithValue(Equal, x.case_, x.value), d.attrs[0].value)
      == OperationAllows(b, WithValue(Equal, x.case_, x.value), b.attrs[0].value);
    assert NamespaceAllows(SpecificNamespace(""), d.attrs[0].ns);
  }

  /** A compound of leaves matches where all of its components do. */
  lemma LeavesMatch(c: Context, s: seq<Component>, e: nat)
    requires IsElement(c.tree, e)
    requires forall i | 0 <= i < |s| :: IsLeaf(s[i]) && LeafMatches(c.quirks, s[i], Data(c.tree, e))
    ensures !SelVal(c, s, e).False?
  {
    CompoundLenUnique(s, |s|);
    forall i | 0 <= i < |s|
      ensures SimpleVal(c, s[i], e).True?
    {
    }
  }

  lemma CompoundMatches(c: Context, ys: seq<Component>, n: nat, x: Component)
    requires n <= |ys| && AllFree(ys) && GetId(x).Some? && !IdLookupIsExact(c.quirks, x)
    requires c.tree == OneElement(MissedIn(ys, x))
    ensures !SelVal(c, Compound(ys, n, x).components, 1).False?
  {
    var s, d := Compound(ys, n, x).components, MissedIn(ys, x);
    MissedInIsMissed(c.quirks, ys, x);
    forall i | 0 <= i < |s|
      ensures IsLeaf(s[i]) && LeafMatches(c.quirks, s[i], d)
    {
      if i < n {
        DressedMatches(c.quirks, MissedBy(x), ys, i);
      } else if i > n {
        DressedMatches(c.quirks, MissedBy(x), ys, i - 1);
      }
    }
    LeavesMatch(c, s, 1);
  }

  lemma TestedSelection(c: Context, ys: seq<Component>, n: nat, x: Component)
    requires n <= |ys| && GetId(x).Some? && !IdLookupIsExact(c.quirks, x) && c.tree == OneElement(MissedIn(ys, x))
    ensures SelectedFrom(c, IdFilter(GetId(x).value, Some([Compound(ys, n, x)])), 0, 0) == []
  {
    var f := IdFilter(GetId(x).value, Some([Compound(ys, n, x)]));
    MissedInIsMissed(c.quirks, ys, x);
    assert !Wanted(c, f, 0, 0) && !Wanted(c, f, 0, 1);
    assert SelectedFrom(c, f, 0, 2) == [] && SelectedFrom(c, f, 0, 1) == [];
  }

  lemma PlainSelection(c: Context, ys: seq<Component>, n: nat, x: Component)
    requires n <= |ys| && AllFree(ys) && GetId(x).Some? && !IdLookupIsExact(c.quirks, x)
    requires c.tree == OneElement(MissedIn(ys, x))
    ensures Selected(c, [Compound(ys, n, x)], 0) == [1]
  {
    CompoundMatches(c, ys, n, x);
    var g := PlainFilter([Compound(ys, n, x)]);
    assert !SelVal(c, [Compound(ys, n, x)][0].components, 1).False?;
    assert !Wanted(c, g, 0, 0) && Wanted(c, g, 0, 1);
    assert SelectedFrom(c, g, 0, 2) == [] && SelectedFrom(c, g, 0, 1) == [1];
  }

  /** The scan passes the free components and gets to `x`. */
  lemma {:induction false} ScanGetsTo(ys: seq<Component>, x: Component, rest: seq<Component>)
    requires AllFree(ys) && GetId(x).Some?
    ensures SubjectId(ys + [x] + rest) == Some(x)
    ensures IdsReached(ys + [x] + rest, true) == [IdTest(true, x)]
  {
    var s := ys + [x] + rest;
    if ys == [] {
      assert s[0] == x;
    } else {
      ScanGetsTo(ys[1..], x, rest);
      assert s[0] == ys[0] && s[1..] == ys[1..] + [x] + rest;
    }
  }

  lemma CompoundIsTested(quirks: bool, ys: seq<Component>, n: nat, x: Component)
    requires n <= |ys| && ys != [] && AllFree(ys) && GetId(x).Some?
    ensures var s := Compound(ys, n, x);
            && |s.components| > 1 && SubjectId(s.components) == Some(x)
            && (IdLookupsAreExact(quirks, [s]) <==> IdLookupIsExact(quirks, x))
  {
    ScanGetsTo(ys[..n], x, ys[n..]);
    var s := Compound(ys, n, x).components;
    assert IdsReached(s, true)[0].component == x;
  }

  lemma CompoundIsAccepted(ys: seq<Component>, n: nat, x: Component, p: NthSharing.Allowed)
    requires n <= |ys| && AllFree(ys) && GetId(x).Some?
    ensures WellFormedList([Compound(ys, n, x)])
    ensures SharedIndices.CacheableList([Compound(ys, n, x)], map[], p)
  {
  }

  /** A query in the document that `x` misses, with a new cache. */
  method QueryMissedBy(quirks: bool, ys: seq<Component>, n: nat, x: Component) returns (query: Query)
    requires n <= |ys| && AllFree(ys) && GetId(x).Some? && !IdLookupIsExact(quirks, x)
    ensures fresh(query) && fresh(query.context) && fresh(query.context.cache) && query.Ready()
    ensures query.State().tree == OneElement(MissedIn(ys, x)) && query.State().quirks == quirks
    ensures query.services.idLists(0, GetId(x).value).Some?
    ensures query.context.AcceptsList([Compound(ys, n, x)])
  {
    var d := MissedIn(ys, x);
    var cache := new NthIndexCache();
    var context := new MatchingContext(OneElement(d), quirks, ForStyling, None, AllLinksUnvisited, cache, true, map[]);
    query := new Query(ServicesFor(d), context);
    assert context.Ready() by {
      SharedIndices.NothingStoredIsRight(context.State(), map[], cache);
    }
    assert Trusted(context.tree, query.services) by {
      MissedInIsMissed(quirks, ys, x);
      OneElementTrusted(d);
    }
    CompoundIsAccepted(ys, n, x, SharedIndices.Steady(context.State()));
  }

  /** For every id component whose lookup is not exact, and any free components around it,
      there is a document in which the fast path succeeds with nothing while the slow path
      finds an element. */
  method InexactLookupLoses(quirks: bool, ys: seq<Component>, n: nat, x: Component)
    returns (ok: bool, fast: seq<nat>, slow: seq<nat>)
    requires n <= |ys| && ys != [] && AllFree(ys) && GetId(x).Some? && !IdLookupIsExact(quirks, x)
    ensures ok && fast == [] && slow == [1]
  {
    ok, fast := FastPathMisses(quirks, ys, n, x);
    slow := SlowPathFinds(quirks, ys, n, x);
  }

  method FastPathMisses(quirks: bool, ys: seq<Component>, n: nat, x: Component) returns (ok: bool, found: seq<nat>)
    requires n <= |ys| && ys != [] && AllFree(ys) && GetId(x).Some? && !IdLookupIsExact(quirks, x)
    ensures ok && found == []
  {
    var query := QueryMissedBy(quirks, ys, n, x);
    var results := new QueryResults(false);
    TestedSelection(query.State(), ys, n, x);
    CompoundIsTested(quirks, ys, n, x);
    ghost var test;
    ok, test := query.QuerySelectorFast(0, [Compound(ys, n, x)], results);
    found := results.elements;
  }

  method SlowPathFinds(quirks: bool, ys: seq<Component>, n: nat, x: Component) returns (found: seq<nat>)
    requires n <= |ys| && ys != [] && AllFree(ys) && GetId(x).Some? && !IdLookupIsExact(quirks, x)
    ensures found == [1]
  {
    var query := QueryMissedBy(quirks, ys, n, x);
    var results := new QueryResults(false);
    PlainSelection(query.State(), ys, n, x);
    query.QuerySelectorSlow(0, [Compound(ys, n, x)], results);
    found := results.elements;
  }

  /** The lookup of `x` drops nothing, in whatever document and context. */
  ghost predicate NeverLoses(quirks: bool, s: Selector, x: Component)
    requires GetId(x).Some?
  {
    forall c: Context, root: nat | c.quirks == quirks && IdsAreAttributes(c.tree) && root < |c.tree.nodes| ::
      !TestLoses(c, root, s, IdTest(true, x), false, [])
  }

  /** For such compounds the check made beforehand is exact. */
  lemma CheckIsExactForCompounds(quirks: bool, ys: seq<Component>, n: nat, x: Component)
    requires n <= |ys| && ys != [] && AllFree(ys) && GetId(x).Some?
    ensures IdLookupsAreExact(quirks, [Compound(ys, n, x)]) <==> NeverLoses(quirks, Compound(ys, n, x), x)
  {
    var s := Compound(ys, n, x);
    CompoundIsTested(quirks, ys, n, x);
    if IdLookupIsExact(quirks, x) {
      forall c: Context, root: nat | c.quirks == quirks && IdsAreAttributes(c.tree) && root < |c.tree.nodes|
        ensures !TestLoses(c, root, s, IdTest(true, x), false, [])
      {
        CompoundNeeds(c, ys, n, x);
        ExactTestLosesNothing(c, root, s, IdTest(true, x));
        TestIsRightIff(c, root, s, IdTest(true, x), false, []);
      }
    } else {
      var t: Tree := OneElement(MissedIn(ys, x));
      var c := Context(t, quirks, ForStyling, false, None, None, AllLinksUnvisited, None);
      MissedInIsMissed(quirks, ys, x);
      OneElementTrusted(MissedIn(ys, x));
      TestedSelection(c, ys, n, x);
      PlainSelection(c, ys, n, x);
      TestIsRightIff(c, 0, s, IdTest(true, x), false, []);
    }
  }

  lemma CompoundNeeds(c: Context, ys: seq<Component>, n: nat, x: Component)
    requires n <= |ys| && AllFree(ys) && GetId(x).Some?
    ensures ComponentNeeded(c, Compound(ys, n, x).components, true, x)
  {
    var s := Compound(ys, n, x).components;
    CompoundLenUnique(s, |s|);
    assert s[n] == x;
  }

  /** `[id=a i]` */
  const INSENSITIVE_ID: Component := AttributeInNoNamespace("id", Equal, "a", ExplicitInsensitive)

  /** `[id=""]` */
  const EMPTY_ID: Component := AttributeInNoNamespace("id", Equal, "", NoFlagSensitive)

  /** `*[id=a i]`, in a document whose only element has the id `A`. */
  method CaseFlagIsLost() returns (ok: bool, fast: seq<nat>, slow: seq<nat>)
    ensures !IdLookupIsExact(false, INSENSITIVE_ID)
    ensures MissedBy(INSENSITIVE_ID).id == Some("A")
    ensures ok && fast == [] && slow == [1]
  {
    assert 'a' <= "a"[0] <= 'z' && OtherCase('a') == 'A' && "a"[0 := 'A'] == "A";
    ok, fast, slow := InexactLookupLoses(false, [ExplicitUniversalType], 1, INSENSITIVE_ID);
  }

  /** `*[id=""]`, in a document whose only element has an empty `id` attribute. */
  method EmptyIdIsLost() returns (ok: bool, fast: seq<nat>, slow: seq<nat>)
    ensures !IdLookupIsExact(false, EMPTY_ID)
    ensures MissedBy(EMPTY_ID).id == None && MissedBy(EMPTY_ID).attrs == [Attribute("", "id", "")]
    ensures ok && fast == [] && slow == [1]
  {
    ok, fast, slow := InexactLookupLoses(false, [ExplicitUniversalType], 1, EMPTY_ID);
  }
}
