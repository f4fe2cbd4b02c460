/** The Bloom filter that follows a traversal.  It holds the hashes of one chain of
    elements, root first, and moves from chain to chain by popping to a common
    ancestor and pushing what is missing. */
module StyleBloom {
  import opened Dom
  import opened BloomFilter
  import opened AncestorHashes
  import opened FastReject
  import opened Layout

  const MEMSET_CLEAR_THRESHOLD: nat := 25

  datatype PushedElement = PushedElement(element: nat, numHashes: nat)

  /** Each element is the parent of the next, the first has none. */
  ghost predicate IsChain(t: Tree, chain: seq<nat>) {
    && (forall i | 0 <= i < |chain| :: IsElement(t, chain[i]))
    && (forall i {:trigger LastOf(chain, i)} | 0 <= i < |chain| :: ParentElement(t, chain[i]) == LastOf(chain, i))
  }

  /** The last of the first `n` elements. */
  function LastOf(chain: seq<nat>, n: nat): Option<nat>
    requires n <= |chain|
  {
    if n == 0 then None else Some(chain[n - 1])
  }

  /** The ancestors of an element, root first. */
  ghost function RootFirst(t: Tree, e: nat): seq<nat>
    requires e < |t.nodes|
  {
    Reverse(Ancestors(t, e))
  }

  /** `chain` is the outer end of the ancestor sequence `above`, root first. */
  ghost predicate Outermost(above: seq<nat>, chain: seq<nat>) {
    && |chain| <= |above|
    && forall i | 0 <= i < |chain| :: chain[i] == above[|above| - 1 - i]
  }

  lemma OutermostAll(above: seq<nat>, chain: seq<nat>)
    requires Outermost(above, chain) && |chain| == |above|
    ensures chain == Reverse(above)
  {
    ReverseIndex(above);
  }

  /** The next ancestor to add to the outer end is the child of the one added last. */
  lemma OutermostNext(t: Tree, e: nat, chain: seq<nat>, n: nat)
    requires IsElement(t, e) && Outermost(Ancestors(t, e), chain) && |chain| + n + 1 == Depth(t, e)
    ensures var a := Ancestors(t, e);
            && IsElement(t, a[n]) && ParentElement(t, a[n]) == LastOf(chain, |chain|)
            && Outermost(a, chain + [a[n]])
  {
    AncestorParent(t, e, n);
  }

  lemma NothingOutermost(above: seq<nat>, chain: seq<nat>)
    requires chain == []
    ensures Outermost(above, chain)
  {
  }

  /** One more element at the inner end of both. */
  lemma OutermostInner(above: seq<nat>, chain: seq<nat>, x: nat)
    requires Outermost(above, chain) && |chain| == |above|
    ensures Outermost([x] + above, chain + [x])
  {
  }

  /** A chain down to `above[k]` whose upper part is the outer end of what lies above. */
  lemma OutermostMeets(above: seq<nat>, k: nat, rest: seq<nat>, chain: seq<nat>, inner: seq<nat>)
    requires k < |above| && rest == above[k + 1..] && |chain| == |rest| + 1 && inner == chain[..|rest|]
    requires Outermost(rest, inner) && chain[|rest|] == above[k]
    ensures Outermost(above, chain) && chain[0] == above[|above| - 1]
  {
    forall i | 0 <= i < |chain|
      ensures chain[i] == above[|above| - 1 - i]
    {
      if i < |rest| {
        assert inner[i] == rest[|rest| - 1 - i];
      }
    }
  }

  lemma AncestorParent(t: Tree, e: nat, k: nat)
    requires IsElement(t, e) && k < Depth(t, e)
    ensures var a := Ancestors(t, e);
            && ParentElement(t, a[k]) == (if k + 1 < |a| then Some(a[k + 1]) else None)
            && Depth(t, a[k]) == |a| - k - 1
  {
    AncestorsSuffix(t, e, k);
  }

  /** A chain is determined by its last element. */
  lemma {:induction false} ChainEndsAt(t: Tree, chain: seq<nat>)
    requires IsChain(t, chain) && chain != []
    ensures |chain| == Depth(t, chain[|chain| - 1]) + 1
    ensures Outermost(Ancestors(t, chain[|chain| - 1]), chain[..|chain| - 1])
    decreases |chain|
  {
    var n := |chain| - 1;
    assert ParentElement(t, chain[n]) == LastOf(chain, n);
    if n > 0 {
      ChainPrefix(t, chain, n);
      ChainEndsAt(t, chain[..n]);
      OutermostInner(Ancestors(t, chain[n - 1]), chain[..n - 1], chain[n - 1]);
      assert chain[..n][..n - 1] == chain[..n - 1];
      TakeOneMore(chain, n - 1);
    }
  }

  lemma ChainPrefix(t: Tree, chain: seq<nat>, n: nat)
    requires IsChain(t, chain) && n <= |chain|
    ensures IsChain(t, chain[..n])
  {
    forall i | 0 <= i < n
      ensures ParentElement(t, chain[..n][i]) == LastOf(chain[..n], i)
    {
      assert chain[..n][i] == chain[i] && LastOf(chain[..n], i) == LastOf(chain, i);
    }
  }

  lemma ChainAppend(t: Tree, chain: seq<nat>, e: nat)
    requires IsChain(t, chain) && IsElement(t, e)
    requires ParentElement(t, e) == LastOf(chain, |chain|)
    ensures IsChain(t, chain + [e])
  {
    var more := chain + [e];
    forall i | 0 <= i < |more|
      ensures IsElement(t, more[i]) && ParentElement(t, more[i]) == LastOf(more, i)
    {
      assert i < |chain| ==> more[i] == chain[i] && LastOf(more, i) == LastOf(chain, i);
    }
  }

  /** The hashes a chain contributes, in the order they were pushed. */
  ghost function ChainHashes(t: Tree, hash: Hasher, chain: seq<nat>): seq<bv32>
    requires forall i | 0 <= i < |chain| :: IsElement(t, chain[i])
  {
    if chain == [] then []
    else ChainHashes(t, hash, chain[..|chain| - 1]) + ElementHashes(hash, Data(t, chain[|chain| - 1]))
  }

  lemma {:induction false} ChainHashesContain(t: Tree, hash: Hasher, chain: seq<nat>, a: nat, h: bv32)
    requires forall i | 0 <= i < |chain| :: IsElement(t, chain[i])
    requires a in chain && h in ElementHashes(hash, Data(t, a))
    ensures h in ChainHashes(t, hash, chain)
  {
    if a != chain[|chain| - 1] {
      ChainHashesContain(t, hash, chain[..|chain| - 1], a, h);
    }
  }

  lemma TakeOneMore<T>(s: seq<T>, n: nat)
    requires n < |s|
    ensures s[..n + 1] == s[..n] + [s[n]]
    ensures n + 1 == |s| ==> s == s[..n] + [s[n]]
  {
  }

  class StyleBloom {
    const tree: Tree
    const hash: Hasher
    const filter: CountingBloomFilter
    var elements: seq<PushedElement>
    var pushedHashes: seq<bv32>
    /** The elements on the stack, root first. */
    ghost var chain: seq<nat>

    /** The stack is a chain, and the filter holds exactly the hashes of the chain. */
    ghost predicate Valid()
      reads this, filter, filter.counters
    {
      && IsChain(tree, chain)
      && |elements| == |chain|
      && (forall i | 0 <= i < |chain| ::
            elements[i] == PushedElement(chain[i], |ElementHashes(hash, Data(tree, chain[i]))|))
      && pushedHashes == ChainHashes(tree, hash, chain)
      && FilterValid()
    }

    ghost predicate FilterValid()
      reads this, filter, filter.counters
    {
      filter.Valid() && filter.held == pushedHashes
    }

    constructor (tree: Tree, hash: Hasher)
      ensures Valid() && fresh(filter) && fresh(filter.counters) && chain == []
      ensures this.tree == tree && this.hash == hash
      ensures filter.IsZeroed()
    {
      this.tree, this.hash := tree, hash;
      filter := new CountingBloomFilter();
      elements, pushedHashes, chain := [], [], [];
    }

    function CurrentParent(): Option<nat>
      reads this
    {
      if elements == [] then None else Some(elements[|elements| - 1].element)
    }

    method PushHashes(hashes: seq<bv32>)
      requires FilterValid()
      modifies this`pushedHashes, filter, filter.counters
      ensures FilterValid() && filter.counters == old(filter.counters)
      ensures pushedHashes == old(pushedHashes) + hashes
    {
      for n := 0 to |hashes|
        invariant FilterValid() && filter.counters == old(filter.counters)
        invariant pushedHashes == old(pushedHashes) + hashes[..n]
      {
        filter.InsertHash(hashes[n]);
        pushedHashes := pushedHashes + [hashes[n]];
        assert hashes[..n + 1] == hashes[..n] + [hashes[n]];
      }
      assert hashes[..|hashes|] == hashes;
    }

    method PopHashes(count: nat)
      requires FilterValid() && count <= |pushedHashes|
      modifies this`pushedHashes, filter, filter.counters
      ensures FilterValid() && filter.counters == old(filter.counters)
      ensures pushedHashes == old(pushedHashes)[..|old(pushedHashes)| - count]
      ensures forall k | 0 <= k < ARRAY_SIZE && old(filter.counters[k]) == 255 :: filter.counters[k] == 255
    {
      for n := 0 to count
        invariant FilterValid() && filter.counters == old(filter.counters)
        invariant forall k | 0 <= k < ARRAY_SIZE && old(filter.counters[k]) == 255 :: filter.counters[k] == 255
        invariant n <= |old(pushedHashes)| && pushedHashes == old(pushedHashes)[..|old(pushedHashes)| - n]
      {
        var last := |pushedHashes| - 1;
        filter.RemoveHash(pushedHashes[last], last);
        pushedHashes := pushedHashes[..last];
      }
    }

    /** Pushes an element whose parent is on top of the stack (or a root on an empty
        stack). */
    method Push(element: nat)
      requires Valid() && IsElement(tree, element)
      requires ParentElement(tree, element) == CurrentParent()
      modifies this, filter, filter.counters
      ensures Valid() && filter.counters == old(filter.counters)
      ensures chain == old(chain) + [element]
    {
      var hashes := ElementHashes(hash, Data(tree, element));
      PushHashes(hashes);
      elements := elements + [PushedElement(element, |hashes|)];
      ChainAppend(tree, chain, element);
      chain := chain + [element];
      assert chain[..|chain| - 1] == old(chain);
    }

    /** Pops the last element and exactly the hashes it had pushed.  A counter that is
        stuck stays so. */
    method Pop() returns (element: nat)
      requires Valid() && elements != []
      modifies this, filter, filter.counters
      ensures Valid() && filter.counters == old(filter.counters)
      ensures Some(element) == old(CurrentParent())
      ensures old(chain) == chain + [element] && |old(chain)| == |chain| + 1
      ensures chain != [] ==> chain[0] == old(chain)[0]
      ensures forall k | 0 <= k < ARRAY_SIZE && old(filter.counters[k]) == 255 :: filter.counters[k] == 255
    {
      var top := elements[|elements| - 1];
      element := top.element;
      elements := elements[..|elements| - 1];
      PopHashes(top.numHashes);
      ChainPrefix(tree, chain, |chain| - 1);
      TakeOneMore(chain, |chain| - 1);
      chain := chain[..|chain| - 1];
    }

    /** Empties the stack; the filter is zeroed afterwards exactly when it was erased as
        a whole or no counter had stuck. */
    method Clear()
      requires Valid()
      modifies this, filter, filter.counters
      ensures Valid() && chain == []
      ensures filter.counters == old(filter.counters) || fresh(filter.counters)
      ensures filter.IsZeroed()
              <==> |old(pushedHashes)| > MEMSET_CLEAR_THRESHOLD
                   || forall k | 0 <= k < ARRAY_SIZE :: old(filter.counters[k]) != 255
    {
      elements, chain := [], [];
      if |pushedHashes| > MEMSET_CLEAR_THRESHOLD {
        filter.Clear();
        pushedHashes := [];
      } else {
        DrainHashes();
        filter.EmptyIsZeroedUnlessStuck();
      }
    }

    /** Takes the pushed hashes out one by one. */
    method DrainHashes()
      requires FilterValid()
      modifies this`pushedHashes, filter, filter.counters
      ensures FilterValid() && pushedHashes == [] && filter.counters == old(filter.counters)
      ensures forall k | 0 <= k < ARRAY_SIZE :: filter.counters[k] == 255 <==> old(filter.counters[k]) == 255
    {
      for n := 0 to |pushedHashes|
        invariant filter.Valid() && filter.counters == old(filter.counters)
        invariant pushedHashes == old(pushedHashes) && filter.held == pushedHashes[n..]
        invariant forall k | 0 <= k < ARRAY_SIZE :: filter.counters[k] == 255 <==> old(filter.counters[k]) == 255
      {
        assert Without(pushedHashes[n..], 0) == pushedHashes[n + 1..];
        filter.RemoveHash(pushedHashes[n], 0);
      }
      pushedHashes := [];
    }

    method Rebuild(element: nat)
      requires Valid() && IsElement(tree, element)
      modifies this, filter, filter.counters
      ensures Valid() && chain == RootFirst(tree, element)
      ensures filter.counters == old(filter.counters) || fresh(filter.counters)
    {
      Clear();
      var parentsToInsert: seq<nat> := [];
      var current := element;
      while true
        invariant IsElement(tree, current)
        invariant parentsToInsert + Ancestors(tree, current) == Ancestors(tree, element)
        decreases current
      {
        var p := ParentElement(tree, current);
        if p.None? {
          break;
        }
        assert Ancestors(tree, current) == [p.value] + Ancestors(tree, p.value);
        parentsToInsert := parentsToInsert + [p.value];
        current := p.value;
      }
      PushAll(element, parentsToInsert);
    }

    /** Pushes collected ancestors, the ones collected last first. */
    method PushAll(element: nat, parents: seq<nat>)
      requires Valid() && IsElement(tree, element) && Outermost(Ancestors(tree, element), chain)
      requires |chain| + |parents| == Depth(tree, element)
      requires parents == Ancestors(tree, element)[..|parents|]
      modifies this, filter, filter.counters
      ensures Valid() && chain == RootFirst(tree, element)
      ensures filter.counters == old(filter.counters)
    {
      var n := |parents|;
      while n > 0
        invariant Valid() && filter.counters == old(filter.counters)
        invariant 0 <= n <= |parents| && |chain| + n == Depth(tree, element)
        invariant Outermost(Ancestors(tree, element), chain)
      {
        n := n - 1;
        assert parents[n] == Ancestors(tree, element)[n];
        OutermostNext(tree, element, chain, n);
        assert CurrentParent() == LastOf(chain, |chain|);
        Push(parents[n]);
      }
      OutermostAll(Ancestors(tree, element), chain);
    }

    /** Moves from the chain it holds to the chain of `element`'s ancestors.  Reports
        whether the search for a common ancestor went past the root, which happens
        exactly when a search is needed and the two chains have different roots. */
    method InsertParentsRecovering(element: nat, elementDepth: nat) returns (noCommonParent: bool)
      requires Valid() && IsElement(tree, element)
      requires elementDepth == Depth(tree, element) || elementDepth == 0
      modifies this, filter, filter.counters
      ensures Valid() && (chain == RootFirst(tree, element) || (chain == [] && elementDepth == 0))
      ensures elementDepth == Depth(tree, element) ==> chain == RootFirst(tree, element)
      ensures filter.counters == old(filter.counters) || fresh(filter.counters)
      ensures noCommonParent <==>
              elementDepth != 0
              && old(chain) != [] && Ancestors(tree, element) != []
              && old(chain)[0] != Ancestors(tree, element)[|Ancestors(tree, element)| - 1]
    {
      noCommonParent := false;
      if elements == [] {
        Rebuild(element);
        return;
      }
      var parent := ParentElement(tree, element);
      if parent.None? {
        Clear();
        return;
      }
      var traversalParent := parent.value;
      if CurrentParent() == Some(traversalParent) {
        ChainOfParent(tree, element, chain);
        return;
      }
      if elementDepth == 0 {
        Clear();
        return;
      }
      noCommonParent := MoveFromChain(element, traversalParent, elementDepth);
    }

    /** The search for the common ancestor, from a chain that does not fit yet. */
    method MoveFromChain(element: nat, traversalParent: nat, elementDepth: nat) returns (noCommonParent: bool)
      requires Valid() && chain != [] && IsElement(tree, element)
      requires ParentElement(tree, element) == Some(traversalParent) && elementDepth == Depth(tree, element)
      modifies this, filter, filter.counters
      ensures Valid() && chain == RootFirst(tree, element)
      ensures filter.counters == old(filter.counters)
      ensures noCommonParent <==> old(chain)[0] != Ancestors(tree, element)[|Ancestors(tree, element)| - 1]
    {
      PopToDepth(elementDepth - 1);
      var parentsToInsert, commonParent := ClimbToDepth(element, traversalParent, elementDepth - 1, |elements| - 1);
      parentsToInsert, noCommonParent := PopToCommonParent(element, parentsToInsert, commonParent);
      PushAll(element, parentsToInsert);
    }

    /** Pops until the last element is at most at the given depth. */
    method PopToDepth(depth: nat)
      requires Valid() && chain != []
      modifies this, filter, filter.counters
      ensures Valid() && filter.counters == old(filter.counters)
      ensures chain != [] && |chain| - 1 <= depth && chain[0] == old(chain)[0]
    {
      var currentDepth := |elements| - 1;
      while currentDepth > depth
        invariant Valid() && filter.counters == old(filter.counters)
        invariant |chain| == currentDepth + 1 && chain != [] && chain[0] == old(chain)[0]
        decreases currentDepth
      {
        var popped := Pop();
        currentDepth := currentDepth - 1;
      }
    }

    /** Collects ancestors of `element` down to, but not including, the one at `depth`. */
    method ClimbToDepth(element: nat, parent: nat, parentDepth: nat, depth: nat) returns (collected: seq<nat>, at: nat)
      requires IsElement(tree, element) && Climbed(Ancestors(tree, element), [], parent)
      requires parentDepth == Depth(tree, parent) && depth <= parentDepth
      ensures Climbed(Ancestors(tree, element), collected, at) && Depth(tree, at) == depth
    {
      collected, at := [], parent;
      var currentDepth := parentDepth;
      while currentDepth > depth
        invariant Climbed(Ancestors(tree, element), collected, at)
        invariant currentDepth == Depth(tree, at) >= depth
        decreases currentDepth
      {
        Climb(tree, element, collected, at);
        collected := collected + [at];
        at := ParentElement(tree, at).value;
        currentDepth := currentDepth - 1;
      }
    }

    /** Pops and climbs in step until both sides agree, or the stack is empty.  The
        stack is never popped when it is empty. */
    method PopToCommonParent(element: nat, parents: seq<nat>, start: nat) returns (collected: seq<nat>, none: bool)
      requires Valid() && chain != [] && IsElement(tree, element)
      requires Climbed(Ancestors(tree, element), parents, start) && |chain| == Depth(tree, start) + 1
      modifies this, filter, filter.counters
      ensures Valid() && filter.counters == old(filter.counters)
      ensures Outermost(Ancestors(tree, element), chain) && |chain| + |collected| == Depth(tree, element)
      ensures collected == Ancestors(tree, element)[..|collected|]
      ensures none <==> old(chain)[0] != Ancestors(tree, element)[|Ancestors(tree, element)| - 1]
    {
      ghost var a, root := Ancestors(tree, element), chain[0];
      var commonParent;
      collected, commonParent := PopBoth(element, parents, start);
      none := commonParent.None?;
      if none {
        NothingOutermost(a, chain);
      } else {
        MeetAtCommonParent(tree, element, collected, commonParent.value, chain);
        assert root == a[|a| - 1];
      }
    }

    /** Pops the chain and goes up from `start` at the same time, until both are at the same
        element or past their roots. */
    method PopBoth(element: nat, parents: seq<nat>, start: nat) returns (collected: seq<nat>, commonParent: Option<nat>)
      requires Valid() && chain != [] && IsElement(tree, element)
      requires Climbed(Ancestors(tree, element), parents, start) && |chain| == Depth(tree, start) + 1
      modifies this, filter, filter.counters
      ensures Valid() && filter.counters == old(filter.counters)
      ensures commonParent.Some? ==>
                && Climbed(Ancestors(tree, element), collected, commonParent.value)
                && chain != [] && chain[0] == old(chain)[0] && chain[|chain| - 1] == commonParent.value
      ensures commonParent.None? ==>
                && chain == [] && collected == Ancestors(tree, element)
                && old(chain)[0] != collected[|collected| - 1]
    {
      collected := parents;
      var current := start;
      ghost var a, root := Ancestors(tree, element), chain[0];
      while elements[|elements| - 1].element != current
        invariant Valid() && filter.counters == old(filter.counters)
        invariant chain != [] && chain[0] == root
        invariant Climbed(a, collected, current)
        invariant |chain| == Depth(tree, current) + 1
        decreases |chain|
      {
        var next := PopBeside(element, collected, current);
        collected := collected + [current];
        if next.None? {
          return collected, None;
        }
        current := next.value;
      }
      commonParent := Some(current);
    }

    /** One step of the search: pops the chain and goes up from `at` at the same time. */
    method PopBeside(element: nat, collected: seq<nat>, at: nat) returns (next: Option<nat>)
      requires Valid() && chain != [] && IsElement(tree, element)
      requires Climbed(Ancestors(tree, element), collected, at) && |chain| == Depth(tree, at) + 1
      requires chain[|chain| - 1] != at
      modifies this, filter, filter.counters
      ensures Valid() && filter.counters == old(filter.counters)
      ensures chain == old(chain)[..|old(chain)| - 1]
      ensures var a := Ancestors(tree, element);
              var more := collected + [at];
              && more == a[..|more|]
              && (next.Some? ==>
                    && Climbed(a, more, next.value)
                    && chain != [] && chain[0] == old(chain)[0] && |chain| == Depth(tree, next.value) + 1)
              && (next.None? ==> chain == [] && |more| == |a| && old(chain)[0] != a[|a| - 1])
    {
      ClimbBeside(tree, element, collected, at, chain);
      next := ParentElement(tree, at);
      var popped := Pop();
    }
  }

  /** Going up along `above`, `collected` has been passed and `at` comes next. */
  ghost predicate Climbed(above: seq<nat>, collected: seq<nat>, at: nat) {
    |collected| < |above| && collected == above[..|collected|] && at == above[|collected|]
  }

  /** Climbing beside a chain of the same depth: at the root of one the other ends too. */
  lemma ClimbBeside(t: Tree, element: nat, collected: seq<nat>, at: nat, chain: seq<nat>)
    requires IsElement(t, element) && Climbed(Ancestors(t, element), collected, at)
    requires IsChain(t, chain) && chain != [] && |chain| == Depth(t, at) + 1 && chain[|chain| - 1] != at
    ensures IsElement(t, at)
    ensures var p := ParentElement(t, at);
            var a := Ancestors(t, element);
            var more := collected + [at];
            && more == a[..|collected| + 1]
            && (p.Some? ==> Climbed(a, more, p.value) && |chain| == Depth(t, p.value) + 2)
            && (p.None? ==> |chain| == 1 && |more| == |a| && chain[0] != a[|a| - 1])
  {
    Climb(t, element, collected, at);
  }

  lemma Climb(t: Tree, element: nat, collected: seq<nat>, at: nat)
    requires IsElement(t, element) && Climbed(Ancestors(t, element), collected, at)
    ensures IsElement(t, at)
    ensures var p := ParentElement(t, at);
            var a := Ancestors(t, element);
            && Depth(t, at) == |a| - |collected| - 1
            && collected + [at] == a[..|collected| + 1]
            && (p.Some? ==> Climbed(a, collected + [at], p.value) && Depth(t, p.value) == |a| - |collected| - 2)
            && (p.None? ==> |collected| + 1 == |a| && at == a[|a| - 1])
  {
    AncestorParent(t, element, |collected|);
    TakeOneMore(Ancestors(t, element), |collected|);
    if |collected| + 1 < Depth(t, element) {
      AncestorParent(t, element, |collected| + 1);
    }
  }

  lemma ChainOfParent(t: Tree, element: nat, chain: seq<nat>)
    requires IsElement(t, element) && IsChain(t, chain) && chain != []
    requires ParentElement(t, element) == Some(chain[|chain| - 1])
    ensures chain == RootFirst(t, element)
    ensures chain[0] == Ancestors(t, element)[Depth(t, element) - 1]
  {
    MeetAtCommonParent(t, element, [], chain[|chain| - 1], chain);
    OutermostAll(Ancestors(t, element), chain);
  }

  /** A chain that ends at an ancestor holds the outermost ancestors. */
  lemma MeetAtCommonParent(t: Tree, element: nat, collected: seq<nat>, at: nat, chain: seq<nat>)
    requires IsElement(t, element) && Climbed(Ancestors(t, element), collected, at)
    requires IsChain(t, chain) && chain != [] && chain[|chain| - 1] == at
    ensures Outermost(Ancestors(t, element), chain) && |chain| + |collected| == Depth(t, element)
    ensures chain[0] == Ancestors(t, element)[Depth(t, element) - 1]
  {
    var a, k := Ancestors(t, element), |collected|;
    var above, inner := Ancestors(t, at), chain[..|chain| - 1];
    assert above == a[k + 1..] by {
      AncestorsSuffix(t, element, k);
    }
    assert |chain| == |above| + 1 && Outermost(above, inner) by {
      ChainEndsAt(t, chain);
    }
    OutermostMeets(a, k, above, chain, inner);
  }

  lemma {:induction false} ReverseIndex<T>(s: seq<T>)
    ensures forall i | 0 <= i < |s| :: Reverse(s)[i] == s[|s| - 1 - i]
  {
    if s != [] {
      ReverseIndex(s[1..]);
    }
  }

  /** After moving to an element, its fast rejection is exact. */
  lemma RecoveredFilterHoldsAncestors(bloom: StyleBloom, element: nat)
    requires bloom.Valid() && IsElement(bloom.tree, element)
    requires bloom.chain == RootFirst(bloom.tree, element)
    ensures HoldsAncestors(bloom.tree, bloom.hash, bloom.filter, element)
  {
    forall a, h | a in Ancestors(bloom.tree, element) && h in ElementHashes(bloom.hash, Data(bloom.tree, a))
      ensures h in bloom.filter.held
    {
      ReverseMembers(Ancestors(bloom.tree, element), a);
      ChainHashesContain(bloom.tree, bloom.hash, bloom.chain, a, h);
    }
  }

  // --------------------------------------- a filter that is left nonzero

  const PLAIN: ElementData := ElementData("", "", None, [], [], false, false, false, false, false, {})

  /** `n` elements, each the only child of the one before. */
  function Path(n: nat): (t: TreeData)
    ensures IsTree(t) && |t.nodes| == n
  {
    TreeData(seq(n, i => Element(PLAIN)), seq(n, (i: nat) => if i == 0 then None else Some(i - 1)))
  }

  /** Every element of a path pushes the same hash twice. */
  lemma {:induction false} HitsOnPath(t: Tree, hash: Hasher, chain: seq<nat>)
    requires forall i | 0 <= i < |chain| :: IsElement(t, chain[i]) && Data(t, chain[i]) == PLAIN
    ensures Hits(ChainHashes(t, hash, chain), Hash1(hash(""))) >= 2 * |chain|
  {
    if chain != [] {
      var h := hash("");
      HitsOnPath(t, hash, chain[..|chain| - 1]);
      HitsOfConcat(ChainHashes(t, hash, chain[..|chain| - 1]), [h, h], Hash1(h));
      HitsOfTwo(h);
      assert ElementHashes(hash, PLAIN) == [h, h];
    }
  }

  lemma HitsOfTwo(h: bv32)
    ensures Hits([h, h], Hash1(h)) >= 2
  {
    assert [h, h][..1] == [h] && [h][..0] == [];
    assert Hits([h], Hash1(h)) >= 1;
  }

  /** Going down a path, from its root. */
  method Descend(t: Tree, bloom: StyleBloom)
    requires t == Path(|t.nodes|) && bloom.Valid() && bloom.tree == t && bloom.chain == []
    modifies bloom, bloom.filter, bloom.filter.counters
    ensures bloom.Valid() && bloom.filter.counters == old(bloom.filter.counters)
    ensures |bloom.chain| == |t.nodes| && forall i | 0 <= i < |t.nodes| :: bloom.chain[i] == i
  {
    for n := 0 to |t.nodes|
      invariant bloom.Valid() && bloom.filter.counters == old(bloom.filter.counters)
      invariant |bloom.chain| == n && forall i | 0 <= i < n :: bloom.chain[i] == i
    {
      bloom.Push(n);
    }
  }

  /** Going back up, a stuck slot stays stuck. */
  method Ascend(bloom: StyleBloom, slot: nat)
    requires bloom.Valid() && slot < ARRAY_SIZE && bloom.filter.counters[slot] == 255
    modifies bloom, bloom.filter, bloom.filter.counters
    ensures bloom.Valid() && bloom.filter.counters == old(bloom.filter.counters)
    ensures bloom.chain == [] && bloom.filter.counters[slot] == 255
  {
    while bloom.elements != []
      invariant bloom.Valid() && bloom.filter.counters == old(bloom.filter.counters)
      invariant bloom.filter.counters[slot] == 255
      decreases |bloom.elements|
    {
      var popped := bloom.Pop();
    }
  }

  /** Whatever the hash function: going down a deep path saturates a slot; going back up
      leaves it stuck, and with so few hashes left `Clear` takes them out one by one. */
  method ClearLeavesStuckSlot(hash: Hasher) returns (bloom: StyleBloom)
    ensures bloom.hash == hash && bloom.Valid() && bloom.chain == [] && !bloom.filter.IsZeroed()
  {
    var t: Tree := Path(128);
    var slot := Hash1(hash(""));
    bloom := new StyleBloom(t, hash);
    Descend(t, bloom);
    HitsOnPath(t, hash, bloom.chain);
    assert bloom.filter.counters[..][slot] == 255;
    Ascend(bloom, slot);
    assert bloom.pushedHashes == [];
    bloom.Clear();
  }
}
