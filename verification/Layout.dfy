/** How a selector is laid out and read back.

    A selector is parsed from left to right but matched from right to left.  It is stored
    as one flat list: compounds and combinators from right to left, each compound in the
    order in which it was pushed.

    The builder reverses the last compound whenever a combinator arrives, and the whole
    buffer at the end.  Iterators stop at combinators, and serialisation splits at them. */
module Layout {
  import opened Dom
  import opened Selectors

  function Reverse<T>(s: seq<T>): (r: seq<T>)
    ensures |r| == |s|
  {
    if s == [] then [] else Reverse(s[1..]) + [s[0]]
  }

  lemma {:induction false} ReverseConcat<T>(a: seq<T>, b: seq<T>)
    ensures Reverse(a + b) == Reverse(b) + Reverse(a)
  {
    if a == [] {
      assert a + b == b;
    } else {
      assert (a + b)[1..] == a[1..] + b;
      ReverseConcat(a[1..], b);
    }
  }

  lemma {:induction false} ReversedAt<T>(s: seq<T>, k: nat)
    requires k < |s|
    ensures |Reverse(s)| == |s| && Reverse(s)[k] == s[|s| - 1 - k]
  {
    if k < |s| - 1 {
      ReversedAt(s[1..], k);
    } else if |s| > 1 {
      ReversedAt(s[1..], 0);
    }
  }

  lemma {:induction false} ReverseTwice<T>(s: seq<T>)
    ensures Reverse(Reverse(s)) == s
  {
    if s != [] {
      ReverseTwice(s[1..]);
      ReverseConcat(Reverse(s[1..]), [s[0]]);
      assert Reverse([s[0]]) == [s[0]];
    }
  }

  /** Matching order: compounds right to left, every compound left to right. */
  function MatchOrder(p: seq<Component>): (s: seq<Component>)
    ensures |s| == |p|
    decreases |p|
  {
    var k := CompoundLen(p);
    if k == |p| then p else MatchOrder(p[k + 1..]) + [p[k]] + p[..k]
  }

  predicate NoCombinator(s: seq<Component>) {
    forall i | 0 <= i < |s| :: !s[i].CombinatorItem?
  }

  /** One compound and nothing else. */
  lemma SingleCompound(s: seq<Component>)
    requires NoCombinator(s)
    ensures CompoundLen(s) == |s| && MatchOrder(s) == s
    ensures Compounds(s) == [s] && Combinators(s) == []
  {
    assert s[..|s|] == s;
  }

  /** One compound in front of a combinator. */
  lemma FirstCompound(s: seq<Component>, comb: Component, rest: seq<Component>)
    requires NoCombinator(s) && comb.CombinatorItem?
    ensures var p := s + [comb] + rest;
            && CompoundLen(p) == |s|
            && MatchOrder(p) == MatchOrder(rest) + [comb] + s
            && Compounds(p) == [s] + Compounds(rest)
            && Combinators(p) == [comb.combinator] + Combinators(rest)
  {
    var p := s + [comb] + rest;
    CompoundLenUnique(p, |s|);
    assert p[..|s|] == s && p[|s|] == comb && p[|s| + 1..] == rest;
  }

  lemma SplitAt<T>(p: seq<T>, k: nat)
    requires k < |p|
    ensures p == p[..k] + [p[k]] + p[k + 1..]
  {
  }

  lemma SplitFirst(p: seq<Component>)
    requires CompoundLen(p) < |p|
    ensures var k := CompoundLen(p); NoCombinator(p[..k]) && p == p[..k] + [p[k]] + p[k + 1..]
  {
    SplitAt(p, CompoundLen(p));
  }

  lemma Regroup<T>(a: seq<T>, x: T, b: seq<T>, y: T, c: seq<T>)
    ensures (a + [x] + b) + [y] + c == a + [x] + (b + [y] + c)
  {
  }

  /** A compound appended on the right comes first in matching order. */
  lemma {:induction false} MatchOrderAppend(p: seq<Component>, comb: Component, last: seq<Component>)
    requires comb.CombinatorItem? && NoCombinator(last)
    ensures MatchOrder(p + [comb] + last) == last + [comb] + MatchOrder(p)
    decreases |p|
  {
    var k := CompoundLen(p);
    if k == |p| {
      FirstCompound(p, comb, last);
      SingleCompound(last);
      SingleCompound(p);
    } else {
      var first, x, rest := p[..k], p[k], p[k + 1..];
      SplitFirst(p);
      MatchOrderAppend(rest, comb, last);
      FirstCompound(first, x, rest);
      FirstCompound(first, x, rest + [comb] + last);
      Regroup(first, x, rest, comb, last);
      Regroup(last, comb, MatchOrder(rest), x, first);
    }
  }

  /** The layout is undone by applying it again: nothing is lost or reordered. */
  lemma {:induction false} MatchOrderTwice(p: seq<Component>)
    ensures MatchOrder(MatchOrder(p)) == p
    decreases |p|
  {
    var k := CompoundLen(p);
    if k < |p| {
      MatchOrderAppend(MatchOrder(p[k + 1..]), p[k], p[..k]);
      MatchOrderTwice(p[k + 1..]);
      assert p == p[..k] + [p[k]] + p[k + 1..];
    } else {
      assert MatchOrder(p) == p;
    }
  }

  lemma {:induction false} CompoundsAppend(p: seq<Component>, comb: Component, last: seq<Component>)
    requires comb.CombinatorItem? && NoCombinator(last)
    ensures Compounds(p + [comb] + last) == Compounds(p) + [last]
    ensures Combinators(p + [comb] + last) == Combinators(p) + [comb.combinator]
    decreases |p|
  {
    var k := CompoundLen(p);
    if k == |p| {
      CompoundsOfTwo(p, comb, last);
    } else {
      SplitFirst(p);
      CompoundsAppend(p[k + 1..], comb, last);
      CompoundsPrepend(p[..k], p[k], p[k + 1..], comb, last);
    }
  }

  lemma CompoundsOfTwo(p: seq<Component>, comb: Component, last: seq<Component>)
    requires comb.CombinatorItem? && NoCombinator(p) && NoCombinator(last)
    ensures Compounds(p + [comb] + last) == Compounds(p) + [last]
    ensures Combinators(p + [comb] + last) == Combinators(p) + [comb.combinator]
  {
    FirstCompound(p, comb, last);
    SingleCompound(last);
    SingleCompound(p);
  }

  lemma CompoundsPrepend(first: seq<Component>, x: Component, rest: seq<Component>, comb: Component,
                         last: seq<Component>)
    requires NoCombinator(first) && x.CombinatorItem? && comb.CombinatorItem?
    requires Compounds(rest + [comb] + last) == Compounds(rest) + [last]
    requires Combinators(rest + [comb] + last) == Combinators(rest) + [comb.combinator]
    ensures Compounds((first + [x] + rest) + [comb] + last) == Compounds(first + [x] + rest) + [last]
    ensures Combinators((first + [x] + rest) + [comb] + last) == Combinators(first + [x] + rest) + [comb.combinator]
  {
    var q := rest + [comb] + last;
    assert (first + [x] + rest) + [comb] + last == first + [x] + q by {
      Regroup(first, x, rest, comb, last);
    }
    FirstCompound(first, x, rest);
    FirstCompound(first, x, q);
    Associate([first], Compounds(rest), [last]);
    Associate([x.combinator], Combinators(rest), [comb.combinator]);
  }

  lemma Associate<T>(a: seq<T>, b: seq<T>, c: seq<T>)
    ensures a + (b + c) == (a + b) + c
  {
  }

  /** Read in storage order, the compounds come last to first, each one as pushed,
      with the combinators that were between them. */
  lemma {:induction false} CompoundsInMatchOrder(p: seq<Component>)
    ensures Compounds(MatchOrder(p)) == Reverse(Compounds(p))
    ensures Combinators(MatchOrder(p)) == Reverse(Combinators(p))
    decreases |p|
  {
    var k := CompoundLen(p);
    if k < |p| {
      CompoundsInMatchOrder(p[k + 1..]);
      CompoundsAppend(MatchOrder(p[k + 1..]), p[k], p[..k]);
      assert Compounds(p)[1..] == Compounds(p[k + 1..]);
      assert Combinators(p)[1..] == Combinators(p[k + 1..]);
    } else {
      assert Compounds(p) == [p[..k]];
    }
  }

  // ------------------------------------------------------------- building

  datatype ParseRelative = ForHas | ForNesting | ForScope | No

  /** What is added on the left of a selector that does not mention it itself. */
  function ImplicitAddition(flags: Flags, r: ParseRelative): seq<Component> {
    if r.ForNesting? && !flags.hasParent then [CombinatorItem(Descendant), ParentSelector]
    else if r.ForScope? && !flags.hasScope && !flags.hasParent then [CombinatorItem(Descendant), ImplicitScope]
    else []
  }

  function FlagsOf(x: Component): Flags {
    match x
    case ParentSelector => Flags(true, false)
    case Scope => Flags(false, true)
    case ImplicitScope => Flags(false, true)
    case NthOf(_, list) => ListFlags(list)
    case Is(list) => ListFlags(list)
    case Where(list) => ListFlags(list)
    case Negation(list) => ListFlags(list)
    case Has(rs) => RelativeFlags(rs)
    case _ => NO_FLAGS
  }

  function Union(a: Flags, b: Flags): Flags {
    Flags(a.hasParent || b.hasParent, a.hasScope || b.hasScope)
  }

  function ListFlags(list: SelectorList): Flags {
    if list == [] then NO_FLAGS else Union(list[0].flags, ListFlags(list[1..]))
  }

  function RelativeFlags(rs: seq<RelativeSelector>): Flags {
    if rs == [] then NO_FLAGS else Union(rs[0].selector.flags, RelativeFlags(rs[1..]))
  }

  function AllFlags(s: seq<Component>): Flags {
    if s == [] then NO_FLAGS else Union(AllFlags(s[..|s| - 1]), FlagsOf(s[|s| - 1]))
  }

  lemma {:induction false} AllFlagsMembers(s: seq<Component>)
    ensures AllFlags(s).hasParent <==> exists x :: x in s && FlagsOf(x).hasParent
    ensures AllFlags(s).hasScope <==> exists x :: x in s && FlagsOf(x).hasScope
  {
    if s != [] {
      var init, last := s[..|s| - 1], s[|s| - 1];
      AllFlagsMembers(init);
      assert forall x :: x in s <==> x in init || x == last by {
        assert s == init + [last];
      }
    }
  }

  lemma {:induction false} ReverseMembers<T>(s: seq<T>, x: T)
    ensures x in Reverse(s) <==> x in s
  {
    if s != [] {
      ReverseMembers(s[1..], x);
    }
  }

  lemma {:induction false} MatchOrderMembers(p: seq<Component>, x: Component)
    ensures x in MatchOrder(p) <==> x in p
    decreases |p|
  {
    var k := CompoundLen(p);
    if k < |p| {
      MatchOrderMembers(p[k + 1..], x);
      SplitFirst(p);
    }
  }

  /** Flags do not depend on the order the components are kept in. */
  lemma SameMembersSameFlags(a: seq<Component>, b: seq<Component>)
    requires forall x :: x in a <==> x in b
    ensures AllFlags(a) == AllFlags(b)
  {
    AllFlagsMembers(a);
    AllFlagsMembers(b);
  }

  /** The selector for components pushed in parse order `p`. */
  function Built(p: seq<Component>, r: ParseRelative): Selector {
    var implicit := ImplicitAddition(AllFlags(p), r);
    Selector(MatchOrder(p) + implicit,
             if implicit == [] then AllFlags(p) else Union(AllFlags(p), FlagsOf(implicit[1])))
  }

  lemma ReversedTail(pre: seq<Component>, comb: Component, last: seq<Component>, buffer: seq<Component>)
    requires comb.CombinatorItem? && NoCombinator(last)
    requires buffer == Reverse(MatchOrder(pre)) + [comb] + last
    ensures buffer[..|pre| + 1] + Reverse(buffer[|pre| + 1..]) == Reverse(MatchOrder(pre + [comb] + last))
  {
    MatchOrderAppend(pre, comb, last);
    ReverseConcat(last + [comb], MatchOrder(pre));
    ReverseConcat(last, [comb]);
    assert Reverse([comb]) == [comb];
    assert buffer[..|pre| + 1] == Reverse(MatchOrder(pre)) + [comb];
    assert buffer[|pre| + 1..] == last;
    Associate(Reverse(MatchOrder(pre)), [comb], Reverse(last));
  }

  class SelectorBuilder {
    var components: seq<Component>
    var lastCompoundStart: Option<nat>
    /** Everything pushed so far, in parse order. */
    ghost var pushed: seq<Component>

    ghost predicate Valid()
      reads this
    {
      && (lastCompoundStart.None? ==> NoCombinator(pushed) && components == pushed)
      && (lastCompoundStart.Some? ==>
            var n := lastCompoundStart.value;
            && 0 < n <= |pushed| == |components|
            && pushed[n - 1].CombinatorItem?
            && NoCombinator(pushed[n..])
            && components == Reverse(MatchOrder(pushed[..n - 1])) + [pushed[n - 1]] + pushed[n..])
    }

    constructor ()
      ensures Valid() && pushed == []
    {
      components, lastCompoundStart, pushed := [], None, [];
    }

    method PushSimpleSelector(ss: Component)
      requires Valid() && !ss.CombinatorItem?
      modifies this
      ensures Valid() && pushed == old(pushed) + [ss]
    {
      components := components + [ss];
      pushed := pushed + [ss];
      if lastCompoundStart.Some? {
        var n := lastCompoundStart.value;
        assert pushed[..n - 1] == old(pushed)[..n - 1] && pushed[n..] == old(pushed)[n..] + [ss];
      }
    }

    method PushCombinator(c: Combinator)
      requires Valid()
      modifies this
      ensures Valid() && pushed == old(pushed) + [CombinatorItem(c)]
    {
      ReverseLastCompound();
      components := components + [CombinatorItem(c)];
      lastCompoundStart := Some(|components|);
      pushed := pushed + [CombinatorItem(c)];
      assert pushed[..|pushed| - 1] == old(pushed);
      assert pushed[|pushed|..] == [];
    }

    /** Afterwards the buffer is the matching order, backwards. */
    method ReverseLastCompound()
      requires Valid()
      modifies this`components
      ensures components == Reverse(MatchOrder(pushed))
    {
      var start := if lastCompoundStart.Some? then lastCompoundStart.value else 0;
      if lastCompoundStart.None? {
        SingleCompound(pushed);
        assert components[..0] + Reverse(components[0..]) == Reverse(pushed) by {
          assert components[0..] == pushed;
        }
      } else {
        ghost var pre, comb, last := pushed[..start - 1], pushed[start - 1], pushed[start..];
        SplitAt(pushed, start - 1);
        ReversedTail(pre, comb, last, components);
        assert |pre| + 1 == start && pushed == pre + [comb] + last;
      }
      components := components[..start] + Reverse(components[start..]);
    }

    method Build(r: ParseRelative) returns (s: Selector)
      requires Valid()
      modifies this
      ensures s == Built(old(pushed), r)
      ensures components == []
    {
      var flags := NO_FLAGS;
      ghost var p := pushed;
      for n := 0 to |components|
        invariant flags == AllFlags(components[..n])
        invariant unchanged(this)
      {
        assert components[..n + 1][..n] == components[..n];
        flags := Union(flags, FlagsOf(components[n]));
      }
      assert components[..|components|] == components;
      assert flags == AllFlags(p) by {
        SameFlags();
      }
      var implicit := ImplicitAddition(flags, r);
      if implicit != [] {
        flags := Union(flags, FlagsOf(implicit[1]));
      }
      if lastCompoundStart.None? {
        SingleCompound(pushed);
        s := Selector(components + implicit, flags);
      } else {
        ReverseLastCompound();
        ReverseTwice(MatchOrder(pushed));
        s := Selector(Reverse(components) + implicit, flags);
      }
      components := [];
    }

    lemma SameFlags()
      requires Valid()
      ensures AllFlags(components) == AllFlags(pushed)
    {
      if lastCompoundStart.Some? {
        var n := lastCompoundStart.value;
        var pre := pushed[..n - 1];
        forall x
          ensures x in components <==> x in pushed
        {
          ReverseMembers(MatchOrder(pre), x);
          MatchOrderMembers(pre, x);
          assert pushed == pre + [pushed[n - 1]] + pushed[n..];
        }
        SameMembersSameFlags(components, pushed);
      }
    }
  }

  // -------------------------------------------------------------- reading

  /** What is left of a selector after skipping compounds up to the next ancestor. */
  function SkipUntilAncestor(s: seq<Component>): (r: seq<Component>)
    ensures |r| <= |s|
    decreases |s|
  {
    var k := CompoundLen(s);
    if k == |s| then []
    else if IsSiblingCombinator(s[k].combinator) then SkipUntilAncestor(s[k + 1..])
    else s[k + 1..]
  }

  lemma CompoundEnds(s: seq<Component>, n: nat, rest: seq<Component>)
    requires n <= CompoundLen(s) && rest == s[n..] && (rest == [] || rest[0].CombinatorItem?)
    ensures CompoundLen(s) == n && (rest == [] ==> n == |s|)
    ensures rest != [] ==> n < |s| && rest[0] == s[n] && rest[1..] == s[n + 1..]
  {
    CompoundLenUnique(s, n);
  }

  lemma CompoundGoesOn(s: seq<Component>, n: nat, rest: seq<Component>)
    requires n <= CompoundLen(s) && rest == s[n..] && rest != [] && !rest[0].CombinatorItem?
    ensures n < CompoundLen(s)
    ensures s[..n + 1] == s[..n] + [rest[0]] && rest[1..] == s[n + 1..]
  {
    assert s[n] == rest[0];
  }

  lemma {:induction false} SkippedIsSuffix(s: seq<Component>)
    ensures SkipUntilAncestor(s) == s[|s| - |SkipUntilAncestor(s)|..]
    decreases |s|
  {
    var k := CompoundLen(s);
    if k < |s| && IsSiblingCombinator(s[k].combinator) {
      SkippedIsSuffix(s[k + 1..]);
    }
  }

  /** Yields the components of one compound, then waits at the combinator until the
      caller moves on. */
  class SelectorIter {
    const items: seq<Component>
    var pos: nat
    var nextCombinator: Option<Combinator>

    ghost predicate Valid()
      reads this
    {
      pos <= |items|
    }

    ghost function Rest(): seq<Component>
      requires Valid()
      reads this
    {
      items[pos..]
    }

    constructor (items: seq<Component>)
      ensures Valid() && Rest() == items && nextCombinator.None? && this.items == items
    {
      this.items, pos, nextCombinator := items, 0, None;
    }

    method Next() returns (c: Option<Component>)
      requires Valid() && nextCombinator.None?
      modifies this
      ensures Valid()
      ensures old(Rest()) == [] ==> c.None? && Rest() == [] && nextCombinator.None?
      ensures old(Rest()) != [] ==> Rest() == old(Rest())[1..]
      ensures old(Rest()) != [] && old(Rest())[0].CombinatorItem? ==>
                c.None? && nextCombinator == Some(old(Rest())[0].combinator)
      ensures old(Rest()) != [] && !old(Rest())[0].CombinatorItem? ==>
                c == Some(old(Rest())[0]) && nextCombinator.None?
    {
      if pos == |items| {
        return None;
      }
      var item := items[pos];
      pos := pos + 1;
      match item {
        case CombinatorItem(comb) =>
          nextCombinator := Some(comb);
          c := None;
        case _ =>
          c := Some(item);
      }
    }

    method NextSequence() returns (c: Option<Combinator>)
      requires Valid()
      modifies this`nextCombinator
      ensures Valid() && c == old(nextCombinator) && nextCombinator.None?
    {
      c := nextCombinator;
      nextCombinator := None;
    }

    /** Runs to the end of the current compound. */
    method FinishCompound() returns (read: seq<Component>)
      requires Valid() && nextCombinator.None?
      modifies this
      ensures Valid()
      ensures var s := old(Rest());
              var k := CompoundLen(s);
              && read == s[..k]
              && (k == |s| ==> Rest() == [] && nextCombinator.None?)
              && (k < |s| ==> Rest() == s[k + 1..] && nextCombinator == Some(s[k].combinator))
    {
      ghost var s := Rest();
      read := [];
      while true
        invariant Valid() && nextCombinator.None?
        invariant |read| <= CompoundLen(s) && read == s[..|read|] && Rest() == s[|read|..]
        decreases |Rest()|
      {
        ghost var rest := Rest();
        var c := Next();
        if c.None? {
          CompoundEnds(s, |read|, rest);
          return;
        }
        CompoundGoesOn(s, |read|, rest);
        read := read + [c.value];
      }
    }

    method Remaining() returns (r: seq<Component>)
      requires Valid()
      ensures r == Rest()
    {
      r := items[pos..];
    }

    method SkipToAncestor()
      requires Valid() && nextCombinator.None?
      modifies this
      ensures Valid() && nextCombinator.None? && Rest() == SkipUntilAncestor(old(Rest()))
    {
      ghost var s := Rest();
      while true
        invariant Valid() && nextCombinator.None?
        invariant SkipUntilAncestor(s) == SkipUntilAncestor(Rest())
        decreases |Rest()|
      {
        var skipped := FinishCompound();
        var c := NextSequence();
        if c.None? || !IsSiblingCombinator(c.value) {
          return;
        }
      }
    }
  }

  /** What `ReadSequences` has read so far, and what is left. */
  ghost predicate ReadSoFar(s: seq<Component>, compounds: seq<seq<Component>>, combinators: seq<Combinator>,
                            rest: seq<Component>) {
    compounds + Compounds(rest) == Compounds(s) && combinators + Combinators(rest) == Combinators(s)
  }

  /** The first compound of `rest`, the combinator after it if there is one, and what is left. */
  ghost predicate IsFirstSequence(rest: seq<Component>, compound: seq<Component>, c: Option<Combinator>,
                                  left: seq<Component>) {
    var k := CompoundLen(rest);
    && compound == rest[..k]
    && (k == |rest| ==> c.None?)
    && (k < |rest| ==> c == Some(rest[k].combinator) && left == rest[k + 1..])
  }

  lemma ReadOneMore(s: seq<Component>, compounds: seq<seq<Component>>, combinators: seq<Combinator>,
                    rest: seq<Component>, compound: seq<Component>, c: Option<Combinator>, left: seq<Component>)
    requires ReadSoFar(s, compounds, combinators, rest) && IsFirstSequence(rest, compound, c, left)
    ensures c.None? ==> compounds + [compound] == Compounds(s) && combinators == Combinators(s)
    ensures c.Some? ==> |left| < |rest| && ReadSoFar(s, compounds + [compound], combinators + [c.value], left)
  {
    if c.None? {
      SingleCompound(rest);
      assert compound == rest;
    } else {
      var k := CompoundLen(rest);
      CompoundsStep(rest, k, compound, left);
      CombinatorsStep(rest, k, c.value, left);
      Prepend(compounds, compound, Compounds(left));
      Prepend(combinators, c.value, Combinators(left));
    }
  }

  /** Reading a whole selector with the iterator. */
  method ReadSequences(s: seq<Component>) returns (compounds: seq<seq<Component>>, combinators: seq<Combinator>)
    ensures compounds == Compounds(s) && combinators == Combinators(s)
  {
    var iter := new SelectorIter(s);
    compounds, combinators := [], [];
    ghost var rest := s;
    while true
      invariant fresh(iter) && iter.Valid() && iter.nextCombinator.None?
      invariant rest == iter.Rest() && ReadSoFar(s, compounds, combinators, rest)
      decreases |rest|
    {
      var compound, c, left := ReadSequence(iter, rest);
      ReadOneMore(s, compounds, combinators, rest, compound, c, left);
      compounds := compounds + [compound];
      if c.None? {
        return;
      }
      combinators := combinators + [c.value];
      rest := left;
    }
  }

  method ReadSequence(iter: SelectorIter, ghost rest: seq<Component>)
    returns (compound: seq<Component>, c: Option<Combinator>, ghost left: seq<Component>)
    requires iter.Valid() && iter.nextCombinator.None? && rest == iter.Rest()
    modifies iter
    ensures iter.Valid() && iter.nextCombinator.None? && left == iter.Rest()
    ensures IsFirstSequence(rest, compound, c, left)
  {
    compound := iter.FinishCompound();
    c := iter.NextSequence();
    left := iter.Rest();
  }

  lemma Prepend<T>(a: seq<T>, x: T, b: seq<T>)
    ensures a + [x] + b == a + ([x] + b)
  {
  }

  /** Serialization walks the stored components backwards and cuts at combinators,
      which gives the parse order of any selector the builder made. */
  method SplitForSerialization(s: seq<Component>) returns (compounds: seq<seq<Component>>, combinators: seq<Combinator>)
    ensures compounds == Reverse(Compounds(s)) && combinators == Reverse(Combinators(s))
  {
    compounds, combinators := [], [];
    var end: nat := |s|;
    var start: nat := |s|;
    while start > 0
      invariant start <= end <= |s|
      invariant NoCombinator(s[start..end])
      invariant CutSoFar(s, end, compounds, combinators)
      decreases start
    {
      start := start - 1;
      if s[start].CombinatorItem? {
        CutOneMore(s, start, end, compounds, combinators);
        compounds := compounds + [s[start + 1..end]];
        combinators := combinators + [s[start].combinator];
        end := start;
      }
    }
    CutLast(s, end, compounds, combinators);
    compounds := compounds + [s[0..end]];
  }

  /** Everything right of the combinator at `end` has been cut. */
  ghost predicate CutSoFar(s: seq<Component>, end: nat, compounds: seq<seq<Component>>, combinators: seq<Combinator>)
    requires end <= |s|
  {
    if end == |s| then compounds == [] && combinators == []
    else
      && s[end].CombinatorItem?
      && compounds == Reverse(Compounds(s[end + 1..]))
      && combinators == Reverse([s[end].combinator] + Combinators(s[end + 1..]))
  }

  lemma ReversePrepend<T>(x: T, rest: seq<T>)
    ensures Reverse([x] + rest) == Reverse(rest) + [x]
  {
    assert ([x] + rest)[1..] == rest;
  }

  lemma CutOneMore(s: seq<Component>, start: nat, end: nat, compounds: seq<seq<Component>>,
                   combinators: seq<Combinator>)
    requires start < end <= |s| && s[start].CombinatorItem? && NoCombinator(s[start + 1..end])
    requires CutSoFar(s, end, compounds, combinators)
    ensures CutSoFar(s, start, compounds + [s[start + 1..end]], combinators + [s[start].combinator])
  {
    var tail, compound, comb := s[start + 1..], s[start + 1..end], s[start].combinator;
    var later := if end < |s| then Compounds(s[end + 1..]) else [];
    var between := if end < |s| then [s[end].combinator] + Combinators(s[end + 1..]) else [];
    assert compounds == Reverse(later) && combinators == Reverse(between);
    assert Compounds(tail) == [compound] + later && Combinators(tail) == between by {
      CutCompound(s, start + 1, end);
    }
    assert compounds + [compound] == Reverse(Compounds(tail)) by {
      ReversePrepend(compound, later);
    }
    assert combinators + [comb] == Reverse([comb] + Combinators(tail)) by {
      ReversePrepend(comb, between);
    }
  }

  lemma CutLast(s: seq<Component>, end: nat, compounds: seq<seq<Component>>, combinators: seq<Combinator>)
    requires end <= |s| && NoCombinator(s[0..end]) && CutSoFar(s, end, compounds, combinators)
    ensures compounds + [s[0..end]] == Reverse(Compounds(s)) && combinators == Reverse(Combinators(s))
  {
    CutCompound(s, 0, end);
    assert s[0..] == s;
    if end < |s| {
      ReversePrepend(s[0..end], Compounds(s[end + 1..]));
    } else {
      ReversePrepend(s[0..end], []);
    }
  }

  /** The stretch between two combinators is the first compound of what follows. */
  lemma CutCompound(s: seq<Component>, start: nat, end: nat)
    requires start <= end <= |s| && NoCombinator(s[start..end])
    requires end < |s| ==> s[end].CombinatorItem?
    ensures end == |s| ==> Compounds(s[start..]) == [s[start..end]] && Combinators(s[start..]) == []
    ensures end < |s| ==> Compounds(s[start..]) == [s[start..end]] + Compounds(s[end + 1..])
                          && Combinators(s[start..]) == [s[end].combinator] + Combinators(s[end + 1..])
  {
    if end < |s| {
      SplitStretch(s, start, end);
      FirstCompound(s[start..end], s[end], s[end + 1..]);
    } else {
      SingleCompound(s[start..end]);
      assert s[start..end] == s[start..];
    }
  }

  lemma SplitStretch<T>(s: seq<T>, start: nat, end: nat)
    requires start <= end < |s|
    ensures s[start..] == s[start..end] + [s[end]] + s[end + 1..]
  {
  }

  /** Build, read back, serialize: the left-to-right order returns. */
  lemma SerializationRestoresParseOrder(p: seq<Component>)
    ensures Reverse(Compounds(MatchOrder(p))) == Compounds(p)
    ensures Reverse(Combinators(MatchOrder(p))) == Combinators(p)
  {
    CompoundsInMatchOrder(p);
    ReverseTwice(Compounds(p));
    ReverseTwice(Combinators(p));
  }

  /** The implicit leftmost compound is read last, after everything that was pushed. */
  lemma ImplicitCompoundIsLeftmost(p: seq<Component>, r: ParseRelative)
    ensures var s := Built(p, r).components;
            var implicit := ImplicitAddition(AllFlags(p), r);
            if implicit == [] then Compounds(s) == Reverse(Compounds(p)) && Combinators(s) == Reverse(Combinators(p))
            else Compounds(s) == Reverse(Compounds(p)) + [[implicit[1]]]
                 && Combinators(s) == Reverse(Combinators(p)) + [Descendant]
  {
    CompoundsInMatchOrder(p);
    var implicit := ImplicitAddition(AllFlags(p), r);
    if implicit == [] {
      assert MatchOrder(p) + implicit == MatchOrder(p);
    } else {
      AppendImplicit(MatchOrder(p), implicit[1]);
    }
  }

  lemma AppendImplicit(s: seq<Component>, x: Component)
    requires !x.CombinatorItem?
    ensures Compounds(s + [CombinatorItem(Descendant), x]) == Compounds(s) + [[x]]
    ensures Combinators(s + [CombinatorItem(Descendant), x]) == Combinators(s) + [Descendant]
  {
    CompoundsAppend(s, CombinatorItem(Descendant), [x]);
    assert s + [CombinatorItem(Descendant), x] == s + [CombinatorItem(Descendant)] + [x];
  }
}
