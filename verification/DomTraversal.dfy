/** All nodes of a tree in document order.

    A walk can leave out the subtree of the node it has just visited; what it then
    passes over is an interval of the order. */
module DomTraversal {
  import opened Dom

  /** `x` lies strictly below `n`, through nodes of any kind. */
  ghost predicate Below(t: Tree, x: nat, n: nat) {
    x < |t.nodes| && t.parents[x].Some? && (t.parents[x].value == n || Below(t, t.parents[x].value, n))
  }

  predicate IsChildNode(t: Tree, x: nat, n: nat) {
    x < |t.nodes| && t.parents[x] == Some(n)
  }

  /** The first child at or after `lo`. */
  function ScanChildNode(t: Tree, n: nat, lo: nat): (c: Option<nat>)
    requires lo <= |t.nodes|
    ensures c.Some? ==> lo <= c.value && IsChildNode(t, c.value, n)
                        && forall x | lo <= x < c.value :: !IsChildNode(t, x, n)
    ensures c.None? ==> forall x | lo <= x :: !IsChildNode(t, x, n)
    decreases |t.nodes| - lo
  {
    if lo == |t.nodes| then None
    else if IsChildNode(t, lo, n) then Some(lo)
    else ScanChildNode(t, n, lo + 1)
  }

  function FirstChild(t: Tree, n: nat): (c: Option<nat>)
    ensures c.Some? ==> IsChildNode(t, c.value, n) && forall x | 0 <= x < c.value :: !IsChildNode(t, x, n)
    ensures c.None? ==> forall x: nat :: !IsChildNode(t, x, n)
  {
    ScanChildNode(t, n, 0)
  }

  function NextSibling(t: Tree, n: nat): (s: Option<nat>)
    requires n < |t.nodes|
    ensures s.Some? ==> n < s.value && t.parents[n].Some? && IsChildNode(t, s.value, t.parents[n].value)
                        && forall x | n < x < s.value :: !IsChildNode(t, x, t.parents[n].value)
    ensures s.None? && t.parents[n].Some? ==> forall x | n < x :: !IsChildNode(t, x, t.parents[n].value)
  {
    if t.parents[n].None? then None else ScanChildNode(t, t.parents[n].value, n + 1)
  }

  /** The node at the top of the tree a node belongs to. */
  function RootOf(t: Tree, n: nat): (r: nat)
    requires n < |t.nodes|
    ensures r <= n
  {
    if t.parents[n].None? then n else RootOf(t, t.parents[n].value)
  }

  // ---------------------------------------------------------------- lemmas

  lemma {:induction false} BelowIsLater(t: Tree, x: nat, n: nat)
    requires Below(t, x, n)
    ensures n < x
  {
    if t.parents[x].value != n {
      BelowIsLater(t, t.parents[x].value, n);
    }
  }

  lemma {:induction false} BelowTransitive(t: Tree, x: nat, y: nat, n: nat)
    requires Below(t, x, y) && Below(t, y, n)
    ensures Below(t, x, n)
  {
    if t.parents[x].value != y {
      BelowTransitive(t, t.parents[x].value, y, n);
    }
  }

  /** Two nodes a node lies below are above each other. */
  lemma {:induction false} BelowBoth(t: Tree, x: nat, a: nat, b: nat)
    requires Below(t, x, a) && Below(t, x, b) && a < b
    ensures Below(t, b, a)
  {
    var p := t.parents[x].value;
    if p != b {
      BelowIsLater(t, p, b);
      BelowBoth(t, p, a, b);
    }
  }

  /** In document order a subtree is an interval. */
  lemma {:induction false} BelowIsConvex(t: Tree, x: nat, y: nat, n: nat)
    requires InDocumentOrder(t) && Below(t, x, n) && n < y < x
    ensures Below(t, y, n)
    decreases x, y
  {
    var p := t.parents[x].value;
    if p != n {
      BelowIsLater(t, p, n);
    }
    if y < p {
      BelowIsConvex(t, p, y, n);
    } else if p < y {
      assert t.parents[y].Some? && p <= t.parents[y].value;
      var q := t.parents[y].value;
      if q != n && p < q {
        BelowIsConvex(t, x, q, n);
      }
    }
  }

  lemma {:induction false} BelowThroughChild(t: Tree, x: nat, n: nat) returns (c: nat)
    requires Below(t, x, n)
    ensures IsChildNode(t, c, n) && (c == x || Below(t, x, c))
    ensures c <= x
  {
    if t.parents[x].value == n {
      c := x;
    } else {
      c := BelowThroughChild(t, t.parents[x].value, n);
    }
  }

  /** Siblings have disjoint subtrees. */
  lemma NotBelowSibling(t: Tree, c: nat, d: nat, p: nat)
    requires IsChildNode(t, c, p) && IsChildNode(t, d, p)
    ensures !Below(t, c, d)
  {
    if Below(t, c, d) {
      BelowIsLater(t, c, d);
      if p != d {
        BelowIsLater(t, p, d);
      }
    }
  }

  lemma {:induction false} BelowHasSameRoot(t: Tree, x: nat, n: nat)
    requires Below(t, x, n)
    ensures n < x && RootOf(t, x) == RootOf(t, n)
  {
    if t.parents[x].value != n {
      BelowHasSameRoot(t, t.parents[x].value, n);
    }
  }

  lemma {:induction false} BelowRoot(t: Tree, x: nat)
    requires x < |t.nodes|
    ensures RootOf(t, x) == x || Below(t, x, RootOf(t, x))
  {
    if t.parents[x].Some? {
      BelowRoot(t, t.parents[x].value);
    }
  }

  lemma {:induction false} AncestorIsAbove(t: Tree, x: nat, a: nat)
    requires x < |t.nodes| && a in Ancestors(t, x)
    ensures Below(t, x, a)
  {
    var p := ParentElement(t, x).value;
    if p != a {
      AncestorIsAbove(t, p, a);
    }
  }

  /** After `cur`, nothing is left below its parent up to `x` but its own subtree. */
  lemma OnlyOwnSubtree(t: Tree, cur: nat, p: nat, x: nat)
    requires InDocumentOrder(t) && IsChildNode(t, cur, p) && cur < x && Below(t, x, p)
    requires forall y | cur < y <= x :: !IsChildNode(t, y, p)
    ensures Below(t, x, cur)
  {
    var c := BelowThroughChild(t, x, p);
    if c < cur {
      BelowIsConvex(t, x, cur, c);
      NotBelowSibling(t, cur, c, p);
    }
  }

  // --------------------------------------------------------------- walking

  /** `r` is the first node after `n` that lies below `scope` but not below `n`. */
  ghost predicate IsNextSkipping(t: Tree, n: nat, scope: nat, r: Option<nat>) {
    match r
    case Some(y) =>
      n < y && Below(t, y, scope) && !Below(t, y, n) && forall x | n < x < y :: Below(t, x, n)
    case None => forall x | n < x && Below(t, x, scope) :: Below(t, x, n)
  }

  /** `r` is the first node after `n` that lies below `scope`. */
  ghost predicate IsNext(t: Tree, n: nat, scope: nat, r: Option<nat>) {
    match r
    case Some(y) => n < y && Below(t, y, scope) && forall x | n < x < y :: !Below(t, x, scope)
    case None => forall x | n < x :: !Below(t, x, scope)
  }

  ghost predicate InScope(t: Tree, n: nat, scope: nat) {
    n < |t.nodes| && (n == scope || Below(t, n, scope))
  }

  method NextInPreorderSkippingChildren(t: Tree, n: nat, scope: nat) returns (r: Option<nat>)
    requires InDocumentOrder(t) && InScope(t, n, scope)
    ensures IsNextSkipping(t, n, scope, r)
  {
    var current := n;
    while true
      invariant InScope(t, current, scope) && (current == n || Below(t, n, current))
      invariant forall x | n < x && Below(t, x, current) :: Below(t, x, n)
      decreases current
    {
      if current == scope {
        return None;
      }
      if current != n {
        BelowIsLater(t, n, current);
      }
      var s := NextSibling(t, current);
      if s.Some? {
        FoundSibling(t, n, scope, current, s.value);
        return s;
      }
      LeaveParent(t, n, current);
      current := t.parents[current].value;
    }
  }

  lemma FoundSibling(t: Tree, n: nat, scope: nat, current: nat, s: nat)
    requires InDocumentOrder(t) && Below(t, current, scope) && n < |t.nodes|
    requires current == n || Below(t, n, current)
    requires forall x | n < x && Below(t, x, current) :: Below(t, x, n)
    requires NextSibling(t, current) == Some(s)
    ensures IsNextSkipping(t, n, scope, Some(s))
  {
    var p := t.parents[current].value;
    NotBelowSibling(t, s, current, p);
    if s <= n && current != n {
      BelowIsConvex(t, n, s, current);
    }
    if Below(t, s, n) && current != n {
      BelowTransitive(t, s, n, current);
    }
    forall x | n < x < s
      ensures Below(t, x, n)
    {
      if current != n {
        BelowIsLater(t, n, current);
      }
      BelowIsConvex(t, s, x, p);
      OnlyOwnSubtree(t, current, p, x);
    }
  }

  lemma LeaveParent(t: Tree, n: nat, current: nat)
    requires InDocumentOrder(t) && current < |t.nodes| && t.parents[current].Some? && NextSibling(t, current).None?
    requires current == n || (current < n && Below(t, n, current))
    requires forall x | n < x && Below(t, x, current) :: Below(t, x, n)
    ensures Below(t, n, t.parents[current].value)
    ensures forall x | n < x && Below(t, x, t.parents[current].value) :: Below(t, x, n)
  {
    var p := t.parents[current].value;
    if current != n {
      assert Below(t, current, p);
      BelowTransitive(t, n, current, p);
    }
    forall x | n < x && Below(t, x, p)
      ensures Below(t, x, n)
    {
      OnlyOwnSubtree(t, current, p, x);
    }
  }

  method NextInPreorder(t: Tree, n: nat, scope: nat) returns (r: Option<nat>)
    requires InDocumentOrder(t) && InScope(t, n, scope)
    ensures IsNext(t, n, scope, r)
  {
    var c := FirstChild(t, n);
    if c.Some? {
      FirstChildIsNext(t, n, scope, c.value);
      return c;
    }
    r := NextInPreorderSkippingChildren(t, n, scope);
    forall x | n < x && Below(t, x, scope)
      ensures !Below(t, x, n)
    {
      if Below(t, x, n) {
        var d := BelowThroughChild(t, x, n);
      }
    }
  }

  lemma FirstChildIsNext(t: Tree, n: nat, scope: nat, c: nat)
    requires InDocumentOrder(t) && InScope(t, n, scope) && FirstChild(t, n) == Some(c)
    ensures IsNext(t, n, scope, Some(c))
  {
    assert Below(t, c, n);
    if n != scope {
      BelowTransitive(t, c, n, scope);
    }
    forall x: nat | Below(t, x, scope)
      ensures !(n < x < c)
    {
      if n < x < c {
        BelowIsConvex(t, c, x, n);
        var d := BelowThroughChild(t, x, n);
        assert false;
      }
    }
  }

  /** Iterates over everything below `scope`. */
  class DomDescendants {
    const tree: Tree
    const scope: nat
    var previous: Option<nat>

    ghost predicate Valid()
      reads this
    {
      InDocumentOrder(tree) && (previous.Some? ==> InScope(tree, previous.value, scope))
    }

    constructor (tree: Tree, scope: nat)
      requires InDocumentOrder(tree) && scope < |tree.nodes|
      ensures Valid() && previous == Some(scope)
      ensures this.tree == tree && this.scope == scope
    {
      this.tree, this.scope, previous := tree, scope, Some(scope);
    }

    method Next() returns (r: Option<nat>)
      requires Valid()
      modifies this
      ensures Valid() && r == previous
      ensures old(previous).Some? ==> IsNext(tree, old(previous).value, scope, r)
      ensures old(previous).None? ==> r.None?
    {
      if previous.None? {
        return None;
      }
      r := NextInPreorder(tree, previous.value, scope);
      previous := r;
    }

    method NextSkippingChildren() returns (r: Option<nat>)
      requires Valid()
      modifies this
      ensures Valid() && r == previous
      ensures old(previous).Some? ==> IsNextSkipping(tree, old(previous).value, scope, r)
      ensures old(previous).None? ==> r.None?
    {
      if previous.None? {
        return None;
      }
      r := NextInPreorderSkippingChildren(tree, previous.value, scope);
      previous := r;
    }
  }
}
