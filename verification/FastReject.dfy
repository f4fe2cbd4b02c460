/** Fast rejection from end to end: the collecting code, the filter lookup, and why a
    rejected selector could not have matched. */
module FastReject {
  import opened Dom
  import opened KleeneLogic
  import opened Selectors
  import opened Semantics
  import opened MatchResults
  import opened Layout
  import opened BloomFilter
  import opened AncestorHashes
  import opened MatchingEngine

  lemma UpcomingAfter(s: seq<Component>, tail: seq<Component>, next: seq<Component>)
    requires s != [] && s[0].CombinatorItem? && tail == s[1..]
    requires next == if IsSiblingCombinator(s[0].combinator) then SkipUntilAncestor(tail) else tail
    ensures Upcoming(s) == if next == [] || next[0].CombinatorItem? then [] else next
  {
  }

  /** All simple selectors of ancestor compounds, in storage order. */
  class AncestorIter {
    const inner: SelectorIter

    constructor (s: seq<Component>)
      ensures fresh(inner) && inner.Valid() && inner.nextCombinator.None? && inner.Rest() == s
    {
      inner := new SelectorIter(s);
    }

    method Next() returns (c: Option<Component>)
      requires inner.Valid() && inner.nextCombinator.None?
      modifies inner
      ensures inner.Valid()
      ensures var t := Upcoming(old(inner.Rest()));
              if t == [] then c.None?
              else c == Some(t[0]) && inner.Rest() == t[1..] && inner.nextCombinator.None?
    {
      ghost var rest := inner.Rest();
      c := inner.Next();
      if c.Some? {
        return;
      }
      ghost var tail := inner.Rest();
      var comb := inner.NextSequence();
      if comb.None? {
        return None;
      }
      if IsSiblingCombinator(comb.value) {
        inner.SkipToAncestor();
      }
      UpcomingAfter(rest, tail, inner.Rest());
      c := inner.Next();
    }
  }

  lemma FullCollection(hash: Hasher, quirks: bool, s: seq<Component>, acc: seq<bv32>)
    requires |acc| == MAX_HASHES
    ensures Collect(hash, quirks, s, acc) == acc
  {
  }

  method CollectSelectorHashes(hash: Hasher, quirks: bool, s: seq<Component>, hashes: array<bv32>, start: nat)
    returns (len: nat)
    requires hashes.Length == MAX_HASHES && start < MAX_HASHES
    modifies hashes
    ensures start <= len <= MAX_HASHES
    ensures hashes[..len] == Collect(hash, quirks, s, old(hashes[..start]))
    ensures forall i | len <= i < MAX_HASHES :: hashes[i] == old(hashes[i])
    decreases s, 2
  {
    len := start;
    var iter := new AncestorIter(s);
    ghost var target := Collect(hash, quirks, s, hashes[..start]);
    ghost var rest := s;
    var more := true;
    while more
      invariant fresh(iter.inner) && iter.inner.Valid()
      invariant more ==> iter.inner.nextCombinator.None? && iter.inner.Rest() == rest
      invariant forall x | x in rest :: x in s
      invariant start <= len <= MAX_HASHES && (more ==> len < MAX_HASHES)
      invariant (if more then Collect(hash, quirks, rest, hashes[..len]) else hashes[..len]) == target
      invariant forall i | len <= i < MAX_HASHES :: hashes[i] == old(hashes[i])
      decreases |rest|, more
    {
      rest, len, more := CollectNext(hash, quirks, s, rest, iter, hashes, len);
    }
  }

  /** One round of the collecting loop; `more` is false when there is nothing left to
      read or no room left. */
  method CollectNext(hash: Hasher, quirks: bool, ghost s: seq<Component>, ghost rest: seq<Component>,
                     iter: AncestorIter, hashes: array<bv32>, start: nat)
    returns (ghost rest': seq<Component>, len: nat, more: bool)
    requires hashes.Length == MAX_HASHES && start < MAX_HASHES
    requires iter.inner.Valid() && iter.inner.nextCombinator.None? && iter.inner.Rest() == rest
    requires forall x | x in rest :: x in s
    modifies hashes, iter.inner
    ensures start <= len <= MAX_HASHES && (more ==> len < MAX_HASHES)
    ensures iter.inner.Valid()
    ensures forall x | x in rest' :: x in s
    ensures more ==> iter.inner.nextCombinator.None? && iter.inner.Rest() == rest' && |rest'| < |rest|
    ensures !more ==> |rest'| <= |rest|
    ensures Collect(hash, quirks, rest, old(hashes[..start]))
            == if more then Collect(hash, quirks, rest', hashes[..len]) else hashes[..len]
    ensures forall i | len <= i < MAX_HASHES :: hashes[i] == old(hashes[i])
    decreases s, 1
  {
    var component;
    component, rest' := ReadNext(s, rest, iter);
    if component.None? {
      return rest, start, false;
    }
    ghost var i :| 0 <= i < |s| && s[i] == component.value;
    len := CollectSelectorHash(hash, quirks, component.value, hashes, start);
    more := len < MAX_HASHES;
    if !more {
      FullCollection(hash, quirks, rest', hashes[..len]);
    }
  }

  method ReadNext(ghost s: seq<Component>, ghost rest: seq<Component>, iter: AncestorIter)
    returns (component: Option<Component>, ghost rest': seq<Component>)
    requires iter.inner.Valid() && iter.inner.nextCombinator.None? && iter.inner.Rest() == rest
    requires forall x | x in rest :: x in s
    modifies iter.inner
    ensures iter.inner.Valid()
    ensures component.None? <==> Upcoming(rest) == []
    ensures component.Some? ==>
              && component.value == Upcoming(rest)[0] && rest' == Upcoming(rest)[1..] && |rest'| < |rest|
              && component.value in s
              && (forall x | x in rest' :: x in s)
              && iter.inner.nextCombinator.None? && iter.inner.Rest() == rest'
  {
    component := iter.Next();
    rest' := if component.Some? then Upcoming(rest)[1..] else [];
    assert component.Some? ==> component.value in Upcoming(rest);
  }

  method CollectSelectorHash(hash: Hasher, quirks: bool, x: Component, hashes: array<bv32>, start: nat)
    returns (len: nat)
    requires hashes.Length == MAX_HASHES && start < MAX_HASHES
    modifies hashes
    ensures start <= len <= MAX_HASHES
    ensures hashes[..len] == CollectComponent(hash, quirks, x, old(hashes[..start]))
    ensures forall i | len <= i < MAX_HASHES :: hashes[i] == old(hashes[i])
    decreases x, 0
  {
    len := start;
    var required := RequiredHash(hash, quirks, x);
    if required.Some? {
      hashes[len] := required.value & BLOOM_HASH_MASK;
      len := len + 1;
    } else if x.Is? && |x.isList| == 1 {
      len := CollectSelectorHashes(hash, quirks, x.isList[0].components, hashes, len);
    } else if x.Where? && |x.whereList| == 1 {
      len := CollectSelectorHashes(hash, quirks, x.whereList[0].components, hashes, len);
    }
  }

  method CollectAncestorHashes(hash: Hasher, quirks: bool, s: seq<Component>, hashes: array<bv32>, start: nat)
    returns (len: nat)
    requires hashes.Length == MAX_HASHES && start < MAX_HASHES
    modifies hashes
    ensures start <= len <= MAX_HASHES
    ensures hashes[..len] == CollectAncestors(hash, quirks, s, old(hashes[..start]))
    ensures forall i | len <= i < MAX_HASHES :: hashes[i] == old(hashes[i])
    decreases s, 4
  {
    var iter := new SelectorIter(s);
    len := CollectSubjectHashes(hash, quirks, s, iter, hashes, start);
    if len == MAX_HASHES {
      return;
    }
    var part := ReadAncestorPart(s, iter);
    len := CollectSelectorHashes(hash, quirks, part, hashes, len);
  }

  /** The subject compound has been read, and the combinator after it. */
  predicate AtSubjectEnd(s: seq<Component>, rest: seq<Component>, comb: Option<Combinator>) {
    var k := CompoundLen(s);
    if k == |s| then rest == [] && comb.None? else rest == s[k + 1..] && comb == Some(s[k].combinator)
  }

  /** What ancestors have to match, read from the end of the subject compound. */
  method ReadAncestorPart(ghost s: seq<Component>, iter: SelectorIter) returns (part: seq<Component>)
    requires iter.Valid() && AtSubjectEnd(s, iter.Rest(), iter.nextCombinator)
    modifies iter
    ensures part == SkipUntilAncestor(s)
  {
    var c := iter.NextSequence();
    if c.None? {
      return [];
    }
    if IsSiblingCombinator(c.value) {
      iter.SkipToAncestor();
    }
    part := iter.Remaining();
  }

  /** Scans the subject compound and leaves the iterator at its end. */
  method CollectSubjectHashes(hash: Hasher, quirks: bool, s: seq<Component>, iter: SelectorIter,
                              hashes: array<bv32>, start: nat)
    returns (len: nat)
    requires hashes.Length == MAX_HASHES && start < MAX_HASHES
    requires iter.Valid() && iter.nextCombinator.None? && iter.Rest() == s
    modifies hashes, iter
    ensures start <= len <= MAX_HASHES
    ensures hashes[..len] == CollectSubject(hash, quirks, s, CompoundLen(s), old(hashes[..start]))
    ensures forall i | len <= i < MAX_HASHES :: hashes[i] == old(hashes[i])
    ensures iter.Valid()
    ensures len < MAX_HASHES ==> AtSubjectEnd(s, iter.Rest(), iter.nextCombinator)
    decreases s, 3
  {
    len := start;
    ghost var n, rest := 0, s;
    while true
      invariant iter.Valid() && iter.nextCombinator.None?
      invariant n <= CompoundLen(s) && rest == iter.Rest() && rest == s[n..]
      invariant start <= len < MAX_HASHES
      invariant hashes[..len] == CollectSubject(hash, quirks, s, n, old(hashes[..start]))
      invariant forall i | len <= i < MAX_HASHES :: hashes[i] == old(hashes[i])
      decreases |s| - n
    {
      var item := ReadSubjectItem(s, n, iter);
      rest := iter.Rest();
      if item.None? {
        return;
      }
      len := CollectSubjectComponentHashes(hash, quirks, item.value, hashes, len);
      n := n + 1;
      if len == MAX_HASHES {
        FullSubject(hash, quirks, s, n, CompoundLen(s), old(hashes[..start]));
        return;
      }
    }
  }

  /** The next component of the subject, or the end of it. */
  method ReadSubjectItem(ghost s: seq<Component>, ghost n: nat, iter: SelectorIter) returns (item: Option<Component>)
    requires iter.Valid() && iter.nextCombinator.None? && n <= CompoundLen(s) && iter.Rest() == s[n..]
    modifies iter
    ensures iter.Valid()
    ensures item.Some? ==>
              n < CompoundLen(s) && item.value == s[n] && iter.Rest() == s[n + 1..] && iter.nextCombinator.None?
    ensures item.None? ==> n == CompoundLen(s) && AtSubjectEnd(s, iter.Rest(), iter.nextCombinator)
  {
    item := iter.Next();
  }

  /** One component of the subject: only a lone selector inside is looked into. */
  method CollectSubjectComponentHashes(hash: Hasher, quirks: bool, x: Component, hashes: array<bv32>, start: nat)
    returns (len: nat)
    requires hashes.Length == MAX_HASHES && start < MAX_HASHES
    modifies hashes
    ensures start <= len <= MAX_HASHES
    ensures hashes[..len] == CollectSubjectComponent(hash, quirks, x, old(hashes[..start]))
    ensures forall i | len <= i < MAX_HASHES :: hashes[i] == old(hashes[i])
    decreases x, 5
  {
    len := start;
    if x.Is? && |x.isList| == 1 {
      len := CollectAncestorHashes(hash, quirks, x.isList[0].components, hashes, len);
    } else if x.Where? && |x.whereList| == 1 {
      len := CollectAncestorHashes(hash, quirks, x.whereList[0].components, hashes, len);
    }
  }

  lemma {:induction false} FullSubject(hash: Hasher, quirks: bool, s: seq<Component>, n: nat, k: nat, acc: seq<bv32>)
    requires |acc| <= MAX_HASHES && n <= k <= |s| && |CollectSubject(hash, quirks, s, n, acc)| == MAX_HASHES
    ensures CollectSubject(hash, quirks, s, k, acc) == CollectSubject(hash, quirks, s, n, acc)
    decreases k
  {
    if n < k {
      FullSubject(hash, quirks, s, n, k - 1, acc);
    }
  }

  method NewAncestorHashes(hash: Hasher, quirks: bool, s: seq<Component>) returns (p: PackedHashes)
    ensures p == Pack(CollectAncestors(hash, quirks, s, []))
  {
    var hashes := new bv32[MAX_HASHES](_ => 0);
    assert hashes[..0] == [];
    var len := CollectAncestorHashes(hash, quirks, s, hashes, 0);
    ghost var collected := hashes[..len];
    if len == MAX_HASHES {
      p := PackFourth(hashes[0], hashes[1], hashes[2], hashes[3]);
    } else {
      p := PackedHashes(hashes[0], hashes[1], hashes[2]);
    }
    assert forall i | 0 <= i < MAX_HASHES :: hashes[i] == HashAt(collected, i);
  }

  /** Could the selector match, judging by the filter alone? */
  predicate SelectorMayMatch(p: PackedHashes, bf: CountingBloomFilter)
    requires bf.counters.Length == ARRAY_SIZE
    reads bf, bf.counters
  {
    if p.w0 == 0 then true
    else if !bf.MightContainHash(p.w0 & BLOOM_HASH_MASK) then false
    else if p.w1 == 0 then true
    else if !bf.MightContainHash(p.w1 & BLOOM_HASH_MASK) then false
    else if p.w2 == 0 then true
    else if !bf.MightContainHash(p.w2 & BLOOM_HASH_MASK) then false
    else FourthHash(p) == 0 || bf.MightContainHash(FourthHash(p))
  }

  lemma {:induction false} CollectedAreMasked(hash: Hasher, quirks: bool, s: seq<Component>, acc: seq<bv32>)
    requires |acc| <= MAX_HASHES && forall m | m in acc :: IsMasked(m)
    ensures forall m | m in Collect(hash, quirks, s, acc) :: IsMasked(m)
    decreases s
  {
    if s == [] || |acc| == MAX_HASHES {
    } else if s[0].CombinatorItem? {
      CollectedAreMasked(hash, quirks, AfterCombinator(s), acc);
    } else {
      ComponentIsMasked(hash, quirks, s[0], acc);
      CollectedAreMasked(hash, quirks, s[1..], CollectComponent(hash, quirks, s[0], acc));
    }
  }

  lemma {:induction false} ComponentIsMasked(hash: Hasher, quirks: bool, x: Component, acc: seq<bv32>)
    requires |acc| < MAX_HASHES && forall m | m in acc :: IsMasked(m)
    ensures forall m | m in CollectComponent(hash, quirks, x, acc) :: IsMasked(m)
    decreases x
  {
    var required := RequiredHash(hash, quirks, x);
    if required.Some? {
      MaskingIsMasked(required.value);
    } else if x.Is? && |x.isList| == 1 {
      CollectedAreMasked(hash, quirks, x.isList[0].components, acc);
    } else if x.Where? && |x.whereList| == 1 {
      CollectedAreMasked(hash, quirks, x.whereList[0].components, acc);
    }
  }

  lemma {:induction false} AncestorHashesAreMasked(hash: Hasher, quirks: bool, s: seq<Component>, acc: seq<bv32>)
    requires |acc| <= MAX_HASHES && forall m | m in acc :: IsMasked(m)
    ensures forall m | m in CollectAncestors(hash, quirks, s, acc) :: IsMasked(m)
    decreases s, 1
  {
    SubjectHashesAreMasked(hash, quirks, s, CompoundLen(s), acc);
    CollectedAreMasked(hash, quirks, SkipUntilAncestor(s), CollectSubject(hash, quirks, s, CompoundLen(s), acc));
  }

  lemma {:induction false} SubjectHashesAreMasked(hash: Hasher, quirks: bool, s: seq<Component>, n: nat, acc: seq<bv32>)
    requires |acc| <= MAX_HASHES && n <= |s| && forall m | m in acc :: IsMasked(m)
    ensures forall m | m in CollectSubject(hash, quirks, s, n, acc) :: IsMasked(m)
    decreases s, 0, n
  {
    if n > 0 {
      SubjectHashesAreMasked(hash, quirks, s, n - 1, acc);
      var before := CollectSubject(hash, quirks, s, n - 1, acc);
      if |before| < MAX_HASHES {
        if s[n - 1].Is? && |s[n - 1].isList| == 1 {
          AncestorHashesAreMasked(hash, quirks, s[n - 1].isList[0].components, before);
        } else if s[n - 1].Where? && |s[n - 1].whereList| == 1 {
          AncestorHashesAreMasked(hash, quirks, s[n - 1].whereList[0].components, before);
        }
      }
    }
  }

  lemma RejectingWord(p: PackedHashes, bf: CountingBloomFilter, h0: bv32, h1: bv32, h2: bv32, h3: bv32)
    returns (i: nat)
    requires bf.Valid() && !SelectorMayMatch(p, bf)
    requires h0 == p.w0 & BLOOM_HASH_MASK && h1 == p.w1 & BLOOM_HASH_MASK && h2 == p.w2 & BLOOM_HASH_MASK
    requires h3 == FourthHash(p)
    ensures i < 4 && !bf.MightContainHash(if i == 0 then h0 else if i == 1 then h1 else if i == 2 then h2 else h3)
    ensures p.w0 != 0 && (i > 0 ==> p.w1 != 0) && (i > 1 ==> p.w2 != 0) && (i > 2 ==> h3 != 0)
  {
    i := if !bf.MightContainHash(h0) then 0
         else if !bf.MightContainHash(h1) then 1
         else if !bf.MightContainHash(h2) then 2
         else 3;
  }

  /** Words that carry `hashes`: the low bits one by one, the top bytes together. */
  ghost predicate Carries(p: PackedHashes, hashes: seq<bv32>) {
    && p.w0 & BLOOM_HASH_MASK == HashAt(hashes, 0)
    && p.w1 & BLOOM_HASH_MASK == HashAt(hashes, 1)
    && p.w2 & BLOOM_HASH_MASK == HashAt(hashes, 2)
    && FourthHash(p) == HashAt(hashes, 3)
    && (|hashes| <= 0 ==> p.w0 == 0) && (|hashes| <= 1 ==> p.w1 == 0) && (|hashes| <= 2 ==> p.w2 == 0)
  }

  /** A rejection names a collected hash that the filter does not contain. */
  lemma RejectionNamesHash(p: PackedHashes, hashes: seq<bv32>, bf: CountingBloomFilter) returns (m: bv32)
    requires |hashes| <= MAX_HASHES && Carries(p, hashes)
    requires bf.Valid() && !SelectorMayMatch(p, bf)
    ensures m in hashes && !bf.MightContainHash(m)
  {
    var i := RejectingWord(p, bf, HashAt(hashes, 0), HashAt(hashes, 1), HashAt(hashes, 2), HashAt(hashes, 3));
    m := hashes[i];
  }

  lemma PackCarries(hashes: seq<bv32>)
    requires |hashes| <= MAX_HASHES && forall i | 0 <= i < |hashes| :: IsMasked(hashes[i])
    ensures Carries(Pack(hashes), hashes)
  {
    PackRoundTrip(hashes);
  }

  /** The filter holds whatever the element's ancestors put into it. */
  ghost predicate HoldsAncestors(t: Tree, hash: Hasher, bf: CountingBloomFilter, e: nat)
    requires IsElement(t, e)
    reads bf
  {
    forall a, h | a in Ancestors(t, e) && h in ElementHashes(hash, Data(t, a)) :: h in bf.held
  }

  /** Fast rejection never changes an answer: what it rejects fails, in every mode. */
  lemma FastRejectIsExact(c: Context, hash: Hasher, s: seq<Component>, e: nat, bf: CountingBloomFilter)
    requires IsElement(c.tree, e) && bf.Valid() && HoldsAncestors(c.tree, hash, bf, e)
    ensures !SelectorMayMatch(Pack(CollectAncestors(hash, c.quirks, s, [])), bf) ==> SelVal(c, s, e).False?
  {
    var collected := CollectAncestors(hash, c.quirks, s, []);
    if !SelectorMayMatch(Pack(collected), bf) && !SelVal(c, s, e).False? {
      AncestorHashesAreMasked(hash, c.quirks, s, []);
      PackCarries(collected);
      var m := RejectionNamesHash(Pack(collected), collected, bf);
      CollectAncestorsSound(c, hash, s, [], e);
      FilterNamesAncestors(c.tree, hash, bf, e, m);
    }
  }

  /** The filter finds whatever hash is on an ancestor. */
  lemma FilterNamesAncestors(t: Tree, hash: Hasher, bf: CountingBloomFilter, e: nat, m: bv32)
    requires IsElement(t, e) && bf.Valid() && HoldsAncestors(t, hash, bf, e)
    requires HashAmong(t, hash, m, Ancestors(t, e))
    ensures bf.MightContainHash(m)
  {
    var a :| a in Ancestors(t, e) && HashOn(t, hash, m, a);
    var h :| h in ElementHashes(hash, Data(t, a)) && m == h & BLOOM_HASH_MASK;
    bf.NeverMisses(h);
  }

  /** Matching with optional fast rejection. */
  method MatchesSelectorKleene(cx: MatchingContext, hash: Hasher, s: seq<Component>, hashes: Option<PackedHashes>,
                               bf: CountingBloomFilter?, e: nat) returns (r: Kleene)
    requires cx.Ready() && IsElement(cx.tree, e) && cx.Accepts(s)
    requires hashes.Some? ==> hashes.value == Pack(CollectAncestors(hash, cx.quirks, s, []))
    requires bf != null ==> bf.Valid() && HoldsAncestors(cx.tree, hash, bf, e)
    modifies cx, cx.cache
    ensures cx.State() == old(cx.State()) && cx.Ready()
    ensures r == SelVal(old(cx.State()), s, e)
  {
    if hashes.Some? && bf != null && !SelectorMayMatch(hashes.value, bf) {
      FastRejectIsExact(cx.State(), hash, s, e, bf);
      return False;
    }
    var result := cx.MatchesComplexSelectorInternal(s, e);
    r := ToKleene(result);
  }
}
