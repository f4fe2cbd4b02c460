/** Selectors as the engine stores them: one flat sequence of simple selectors and
    combinators in matching order (compounds right to left, each compound left to
    right), nested through `:is()`, `:where()`, `:not()`, `:has()` and
    `:nth-child(of)`. */
module Selectors {
  import opened Dom

  datatype Combinator = Child | Descendant | NextSibling | LaterSibling

  predicate IsSiblingCombinator(c: Combinator) {
    c.NextSibling? || c.LaterSibling?
  }

  datatype NthType = OfChild | LastChild | OnlyChild | OfType | LastOfType | OnlyOfType
  {
    predicate IsOnly() { OnlyChild? || OnlyOfType? }
    predicate IsOfType() { OfType? || LastOfType? || OnlyOfType? }
    predicate IsFromEnd() { LastChild? || LastOfType? }
  }

  datatype NthData = NthData(ty: NthType, a: int, b: int)

  datatype CaseSensitivity = CaseSensitive | AsciiCaseInsensitive

  datatype ParsedCaseSensitivity =
    | ExplicitCaseSensitive
    | ExplicitInsensitive
    | NoFlagSensitive
    | NoFlagInsensitiveIfHtml

  datatype AttrOperator = Equal | Includes | DashMatch | Prefix | Substring | Suffix

  datatype AttrOperation =
    | Exists
    | WithValue(operator: AttrOperator, case_: ParsedCaseSensitivity, value: string)

  datatype NamespaceConstraint = AnyNamespace | SpecificNamespace(url: Atom)

  /** Where a relative selector's subject can be, seen from the anchor. */
  datatype MatchHint = InSubtree | InChild | InNextSibling | InNextSiblingSubtree | InSibling | InSiblingSubtree
  {
    predicate IsDescendantDirection() { InChild? || InSubtree? }
    predicate IsNextSibling() { InNextSibling? || InNextSiblingSubtree? }
    predicate IsSubtree() { InSubtree? || InSiblingSubtree? || InNextSiblingSubtree? }
  }

  datatype Component =
    | LocalName(name: Atom, lowerName: Atom)
    | ID(id: Atom)
    | Class(class_: Atom)
    | AttributeInNoNamespaceExists(attrName: Atom, attrNameLower: Atom)
    | AttributeInNoNamespace(attrLocal: Atom, operator: AttrOperator, value: string, case_: ParsedCaseSensitivity)
    | AttributeOther(constraint: Option<NamespaceConstraint>, otherName: Atom, otherNameLower: Atom,
      operation: AttrOperation)
    | ExplicitUniversalType
    | ExplicitAnyNamespace
    | ExplicitNoNamespace
    | DefaultNamespace(url: Atom)
    | Namespace(prefix: Atom, nsUrl: Atom)
    | Root
    | Empty
    | NonTSPseudoClass(state: nat)
    | LinkPseudoClass(visited: bool)
    | Invalid
    | Scope
    | ImplicitScope
    | ParentSelector
    | RelativeSelectorAnchor
    | Nth(data: NthData)
    | NthOf(ofData: NthData, selectors: seq<Selector>)
    | Is(isList: seq<Selector>)
    | Where(whereList: seq<Selector>)
    | Negation(notList: seq<Selector>)
    | Has(relatives: seq<RelativeSelector>)
    | CombinatorItem(combinator: Combinator)

  /** The stored HAS_PARENT and HAS_SCOPE flags. */
  datatype Flags = Flags(hasParent: bool, hasScope: bool)

  const NO_FLAGS: Flags := Flags(false, false)

  datatype Selector = Selector(components: seq<Component>, flags: Flags)

  datatype RelativeSelector = RelativeSelector(hint: MatchHint, selector: Selector)

  type SelectorList = seq<Selector>

  // ------------------------------------------------------------ flat layout

  /** Length of the first compound: the components before the first combinator. */
  function CompoundLen(s: seq<Component>): (k: nat)
    ensures k <= |s|
    ensures forall i | 0 <= i < k :: !s[i].CombinatorItem?
    ensures k < |s| ==> s[k].CombinatorItem?
  {
    if |s| == 0 || s[0].CombinatorItem? then 0 else 1 + CompoundLen(s[1..])
  }

  lemma {:induction false} CompoundLenUnique(s: seq<Component>, k: nat)
    requires k <= |s|
    requires forall i | 0 <= i < k :: !s[i].CombinatorItem?
    requires k < |s| ==> s[k].CombinatorItem?
    ensures CompoundLen(s) == k
  {
    if k > 0 {
      CompoundLenUnique(s[1..], k - 1);
    }
  }

  /** The compounds, in storage order: the subject first. */
  function Compounds(s: seq<Component>): (r: seq<seq<Component>>)
    ensures |r| > 0
    decreases |s|
  {
    var k := CompoundLen(s);
    [s[..k]] + if k < |s| then Compounds(s[k + 1..]) else []
  }

  /** The combinators between them. */
  function Combinators(s: seq<Component>): seq<Combinator>
    decreases |s|
  {
    var k := CompoundLen(s);
    if k < |s| then [s[k].combinator] + Combinators(s[k + 1..]) else []
  }

  lemma CompoundsStep(s: seq<Component>, k: nat, compound: seq<Component>, rest: seq<Component>)
    requires k == CompoundLen(s) < |s| && compound == s[..k] && rest == s[k + 1..]
    ensures Compounds(s) == [compound] + Compounds(rest)
  {
  }

  lemma CombinatorsStep(s: seq<Component>, k: nat, comb: Combinator, rest: seq<Component>)
    requires k == CompoundLen(s) < |s| && comb == s[k].combinator && rest == s[k + 1..]
    ensures Combinators(s) == [comb] + Combinators(rest)
  {
  }

  /** One combinator fewer than compounds, as they stand between them. */
  lemma {:induction false} OneCombinatorLess(s: seq<Component>)
    ensures |Combinators(s)| + 1 == |Compounds(s)|
    decreases |s|
  {
    var k := CompoundLen(s);
    if k < |s| {
      var compound, comb, rest := s[..k], s[k].combinator, s[k + 1..];
      OneCombinatorLess(rest);
      assert |Compounds(s)| == 1 + |Compounds(rest)| by {
        CompoundsStep(s, k, compound, rest);
      }
      assert |Combinators(s)| == 1 + |Combinators(rest)| by {
        CombinatorsStep(s, k, comb, rest);
      }
    }
  }

  // ------------------------------------------- search-space hints of `:has()`

  ghost predicate HasDescendantCombinator(s: seq<Component>) {
    exists i | 0 <= i < |s| :: s[i].CombinatorItem? && !IsSiblingCombinator(s[i].combinator)
  }

  ghost predicate HasSiblingCombinator(s: seq<Component>) {
    exists i | 0 <= i < |s| :: s[i].CombinatorItem? && IsSiblingCombinator(s[i].combinator)
  }

  function NewMatchHint(relative: Combinator, hasDescendants: bool, hasSiblings: bool): MatchHint {
    match relative
    case Descendant => InSubtree
    case Child => if !hasDescendants then InChild else InSubtree
    case NextSibling =>
      if !hasDescendants && !hasSiblings then InNextSibling
      else if !hasDescendants then InSibling
      else if !hasSiblings then InNextSiblingSubtree
      else InSiblingSubtree
    case LaterSibling => if !hasDescendants then InSibling else InSiblingSubtree
  }

  /** A parsed relative selector ends (leftmost) with the relative combinator and
      the anchor, and has no other anchor compound of its own. */
  predicate EndsWithAnchor(s: seq<Component>) {
    |s| >= 2 && s[|s| - 1].RelativeSelectorAnchor? && s[|s| - 2].CombinatorItem?
  }

  ghost function HintOf(s: seq<Component>): MatchHint
    requires EndsWithAnchor(s)
  {
    var inner := s[..|s| - 2];
    NewMatchHint(s[|s| - 2].combinator, HasDescendantCombinator(inner), HasSiblingCombinator(inner))
  }

  /** What the parser guarantees: every relative selector carries its own hint. */
  ghost predicate WellFormed(s: seq<Component>) {
    forall i | 0 <= i < |s| :: WellFormedComponent(s[i])
  }

  ghost predicate WellFormedList(list: seq<Selector>) {
    forall i | 0 <= i < |list| :: WellFormed(list[i].components)
  }

  ghost predicate WellFormedComponent(x: Component) {
    match x
    case NthOf(_, list) => WellFormedList(list)
    case Is(list) => WellFormedList(list)
    case Where(list) => WellFormedList(list)
    case Negation(list) => WellFormedList(list)
    case Has(rs) => forall i | 0 <= i < |rs| :: WellFormedRelative(rs[i])
    case _ => true
  }

  ghost predicate WellFormedRelative(r: RelativeSelector) {
    && EndsWithAnchor(r.selector.components)
    && r.hint == HintOf(r.selector.components)
    && WellFormed(r.selector.components)
  }

  // -------------------------------------------------------- leaf selectors

  function LowerChar(ch: char): char {
    if 'A' <= ch <= 'Z' then (ch as int + 32) as char else ch
  }

  function Lower(s: string): (r: string)
    ensures |r| == |s|
  {
    seq(|s|, i requires 0 <= i < |s| => LowerChar(s[i]))
  }

  predicate CaseEq(cs: CaseSensitivity, a: string, b: string) {
    if cs.CaseSensitive? then a == b else Lower(a) == Lower(b)
  }

  predicate IsSelectorWhitespace(ch: char) {
    ch in [' ', '\t', '\n', '\r', 12 as char]
  }

  predicate EvalOperator(op: AttrOperator, e: string, s: string, cs: CaseSensitivity) {
    match op
    case Equal => CaseEq(cs, e, s)
    case Prefix => s != "" && |e| >= |s| && CaseEq(cs, e[..|s|], s)
    case Suffix => s != "" && |e| >= |s| && CaseEq(cs, e[|e| - |s|..], s)
    case Substring =>
      s != "" && exists i, j | 0 <= i <= |e| && i <= j <= |e| && j - i == |s| :: CaseEq(cs, e[i..j], s)
    case Includes =>
      && s != ""
      && exists i, j | 0 <= i <= |e| && i <= j <= |e| ::
           && CaseEq(cs, e[i..j], s)
           && (i == 0 || IsSelectorWhitespace(e[i - 1]))
           && (j == |e| || IsSelectorWhitespace(e[j]))
           && forall k | i <= k < j :: !IsSelectorWhitespace(e[k])
    case DashMatch =>
      CaseEq(cs, e, s) || (|s| < |e| && e[|s|] == '-' && CaseEq(cs, e[..|s|], s))
  }

  function UnconditionalCase(p: ParsedCaseSensitivity, isHtml: bool): CaseSensitivity {
    match p
    case ExplicitCaseSensitive => CaseSensitive
    case NoFlagSensitive => CaseSensitive
    case ExplicitInsensitive => AsciiCaseInsensitive
    case NoFlagInsensitiveIfHtml => if isHtml then AsciiCaseInsensitive else CaseSensitive
  }

  function SelectName(isHtml: bool, name: Atom, lower: Atom): Atom {
    if name == lower || isHtml then lower else name
  }

  predicate HasId(d: ElementData, id: Atom, cs: CaseSensitivity) {
    d.id.Some? && CaseEq(cs, d.id.value, id)
  }

  predicate HasClass(d: ElementData, class_: Atom, cs: CaseSensitivity) {
    exists i | 0 <= i < |d.classes| :: CaseEq(cs, d.classes[i], class_)
  }

  predicate HasAttrInNoNamespace(d: ElementData, name: Atom) {
    exists i | 0 <= i < |d.attrs| :: d.attrs[i].ns == "" && d.attrs[i].name == name
  }

  predicate NamespaceAllows(n: NamespaceConstraint, ns: Atom) {
    n.AnyNamespace? || n.url == ns
  }

  predicate OperationAllows(d: ElementData, op: AttrOperation, value: string) {
    op.Exists? || EvalOperator(op.operator, value, op.value, UnconditionalCase(op.case_, d.isHtml))
  }

  predicate AttrMatches(d: ElementData, n: NamespaceConstraint, name: Atom, op: AttrOperation) {
    exists i | 0 <= i < |d.attrs| ::
      && NamespaceAllows(n, d.attrs[i].ns)
      && d.attrs[i].name == name
      && OperationAllows(d, op, d.attrs[i].value)
  }

  /** Simple selectors whose answer depends on the element alone. */
  predicate IsLeaf(x: Component) {
    !(x.Scope? || x.ImplicitScope? || x.ParentSelector? || x.RelativeSelectorAnchor? || x.Nth? || x.NthOf?
      || x.Is? || x.Where? || x.Negation? || x.Has? || x.CombinatorItem? || x.LinkPseudoClass?)
  }

  function IdClassCase(quirks: bool): CaseSensitivity {
    if quirks then AsciiCaseInsensitive else CaseSensitive
  }

  predicate LeafMatches(quirks: bool, x: Component, d: ElementData)
    requires IsLeaf(x)
  {
    match x
    case LocalName(name, lower) => d.localName == SelectName(d.isHtml, name, lower)
    case ID(id) => HasId(d, id, IdClassCase(quirks))
    case Class(class_) => HasClass(d, class_, IdClassCase(quirks))
    case AttributeInNoNamespaceExists(name, lower) => HasAttrInNoNamespace(d, SelectName(d.isHtml, name, lower))
    case AttributeInNoNamespace(name, op, value, cs) =>
      AttrMatches(d, SpecificNamespace(""), name, WithValue(op, cs, value))
    case AttributeOther(n, name, lower, op) =>
      AttrMatches(d, if n.Some? then n.value else SpecificNamespace(""), SelectName(d.isHtml, name, lower), op)
    case ExplicitUniversalType => true
    case ExplicitAnyNamespace => true
    case ExplicitNoNamespace => d.ns == ""
    case DefaultNamespace(url) => d.ns == url
    case Namespace(_, url) => d.ns == url
    case Root => d.isRoot
    case Empty => d.isEmpty
    case NonTSPseudoClass(state) => state in d.states
    case Invalid => false
  }
}
