/** A light DOM tree, shared by every module that matches or walks elements.

    Nodes are numbered in document order and each one records its parent, so a
    parent and every earlier sibling has a smaller number.  A node without a
    parent starts a tree of its own: the tree is a forest, as it is for content
    that hangs outside the document. */
module Dom {

  datatype Option<+T> = None | Some(value: T)

  /** Interned strings: local names, identifiers, classes, namespaces. */
  type Atom = string

  datatype Attribute = Attribute(ns: Atom, name: Atom, value: string)

  /** What the matching code asks of an element.  `isHtml` is "HTML element in an
      HTML document"; `states` are the pseudo-classes that the embedder says hold. */
  datatype ElementData = ElementData(
    localName: Atom,
    ns: Atom,
    id: Option<Atom>,
    classes: seq<Atom>,
    attrs: seq<Attribute>,
    isHtml: bool,
    isRoot: bool,
    isEmpty: bool,
    ignoresNth: bool,
    isLink: bool,
    states: set<nat>)

  datatype Node = Element(data: ElementData) | Document | CharacterData

  datatype TreeData = TreeData(nodes: seq<Node>, parents: seq<Option<nat>>)

  ghost predicate IsTree(t: TreeData) {
    && |t.nodes| == |t.parents|
    && (forall i | 0 <= i < |t.nodes| && t.parents[i].Some? ::
          t.parents[i].value < i && !t.nodes[t.parents[i].value].CharacterData?)
    && (forall i | 0 <= i < |t.nodes| && t.nodes[i].Document? :: t.parents[i].None?)
  }

  type Tree = t: TreeData | IsTree(t) witness TreeData([], [])

  /** The numbering is a pre-order: the nodes between a node and one of its
      children lie below that node. */
  ghost predicate InDocumentOrder(t: Tree) {
    forall i, j | 0 <= i < |t.nodes| && t.parents[i].Some? && t.parents[i].value < j < i ::
      t.parents[j].Some? && t.parents[i].value <= t.parents[j].value
  }

  predicate IsElement(t: Tree, e: nat) {
    e < |t.nodes| && t.nodes[e].Element?
  }

  function Data(t: Tree, e: nat): ElementData
    requires IsElement(t, e)
  {
    t.nodes[e].data
  }

  /** The parent, when it is an element. */
  function ParentElement(t: Tree, e: nat): (p: Option<nat>)
    requires e < |t.nodes|
    ensures p.Some? ==> p.value < e && IsElement(t, p.value)
  {
    var p := t.parents[e];
    if p.Some? && t.nodes[p.value].Element? then p else None
  }

  /** Element ancestors, nearest first. */
  function Ancestors(t: Tree, e: nat): (s: seq<nat>)
    requires e < |t.nodes|
    ensures forall i | 0 <= i < |s| :: s[i] < e && IsElement(t, s[i])
  {
    var p := ParentElement(t, e);
    if p.None? then [] else [p.value] + Ancestors(t, p.value)
  }

  function Depth(t: Tree, e: nat): nat
    requires e < |t.nodes|
  {
    |Ancestors(t, e)|
  }

  /** Two elements with one parent node. */
  predicate Siblings(t: Tree, x: nat, e: nat) {
    IsElement(t, x) && IsElement(t, e) && t.parents[x].Some? && t.parents[x] == t.parents[e]
  }

  function ScanBack(t: Tree, e: nat, hi: nat): (p: Option<nat>)
    requires IsElement(t, e) && hi <= e
    ensures p.Some? ==> p.value < hi && Siblings(t, p.value, e)
                        && forall x | p.value < x < hi :: !Siblings(t, x, e)
    ensures p.None? ==> forall x | 0 <= x < hi :: !Siblings(t, x, e)
  {
    if hi == 0 then None
    else if Siblings(t, hi - 1, e) then Some(hi - 1)
    else ScanBack(t, e, hi - 1)
  }

  /** The closest earlier sibling element. */
  function PrevSiblingElement(t: Tree, e: nat): (p: Option<nat>)
    requires IsElement(t, e)
    ensures p.Some? ==> p.value < e && Siblings(t, p.value, e)
                        && forall x | p.value < x < e :: !Siblings(t, x, e)
    ensures p.None? ==> forall x | 0 <= x < e :: !Siblings(t, x, e)
  {
    ScanBack(t, e, e)
  }

  function ScanForward(t: Tree, e: nat, lo: nat): (p: Option<nat>)
    requires IsElement(t, e) && lo <= |t.nodes|
    ensures p.Some? ==> lo <= p.value && Siblings(t, p.value, e)
                        && forall x | lo <= x < p.value :: !Siblings(t, x, e)
    ensures p.None? ==> forall x | lo <= x :: !Siblings(t, x, e)
    decreases |t.nodes| - lo
  {
    if lo == |t.nodes| then None
    else if Siblings(t, lo, e) then Some(lo)
    else ScanForward(t, e, lo + 1)
  }

  /** The closest later sibling element. */
  function NextSiblingElement(t: Tree, e: nat): (p: Option<nat>)
    requires IsElement(t, e)
    ensures p.Some? ==> e < p.value && Siblings(t, p.value, e)
                        && forall x | e < x < p.value :: !Siblings(t, x, e)
    ensures p.None? ==> forall x | e < x :: !Siblings(t, x, e)
  {
    ScanForward(t, e, e + 1)
  }

  predicate IsChildElement(t: Tree, x: nat, e: nat) {
    IsElement(t, x) && t.parents[x] == Some(e)
  }

  function ScanChild(t: Tree, e: nat, lo: nat): (p: Option<nat>)
    requires lo <= |t.nodes|
    ensures p.Some? ==> lo <= p.value && IsChildElement(t, p.value, e)
                        && forall x | lo <= x < p.value :: !IsChildElement(t, x, e)
    ensures p.None? ==> forall x | lo <= x :: !IsChildElement(t, x, e)
    decreases |t.nodes| - lo
  {
    if lo == |t.nodes| then None
    else if IsChildElement(t, lo, e) then Some(lo)
    else ScanChild(t, e, lo + 1)
  }

  /** The first element child. */
  function FirstElementChild(t: Tree, e: nat): (p: Option<nat>)
    requires IsElement(t, e)
    ensures p.Some? ==> e < p.value && IsChildElement(t, p.value, e)
                        && forall x | 0 <= x < p.value :: !IsChildElement(t, x, e)
    ensures p.None? ==> forall x: nat :: !IsChildElement(t, x, e)
  {
    ScanChild(t, e, 0)
  }

  // ---------------------------------------------------------------- lemmas

  /** An ancestor's chain is the tail of the chain it was found in. */
  lemma {:induction false} AncestorsSuffix(t: Tree, e: nat, i: nat)
    requires e < |t.nodes| && i < |Ancestors(t, e)|
    ensures Ancestors(t, Ancestors(t, e)[i]) == Ancestors(t, e)[i + 1..]
  {
    var p := ParentElement(t, e);
    if i > 0 {
      AncestorsSuffix(t, p.value, i - 1);
    }
  }

  lemma AncestorTransitive(t: Tree, x: nat, a: nat, b: nat)
    requires x < |t.nodes| && a in Ancestors(t, x) && b in Ancestors(t, a)
    ensures b in Ancestors(t, x)
  {
    var i :| 0 <= i < |Ancestors(t, x)| && Ancestors(t, x)[i] == a;
    AncestorsSuffix(t, x, i);
  }

  lemma SiblingsShareAncestors(t: Tree, x: nat, e: nat)
    requires Siblings(t, x, e)
    ensures Ancestors(t, x) == Ancestors(t, e)
  {
  }

  /** Every strict descendant is a child or lies below a child. */
  lemma {:induction false} DescendantThroughChild(t: Tree, x: nat, a: nat) returns (c: nat)
    requires IsElement(t, x) && a in Ancestors(t, x)
    ensures IsChildElement(t, c, a) && (c == x || c in Ancestors(t, x))
  {
    var p := ParentElement(t, x);
    if p.value == a {
      c := x;
    } else {
      c := DescendantThroughChild(t, p.value, a);
    }
  }
}
