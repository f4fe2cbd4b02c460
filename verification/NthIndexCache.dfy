/** The cache behind `:nth-*`: indices per kind of pseudo-class, and per address of the selector list.  A lookup
    walks the siblings only until it meets one whose index is stored. */
module NthIndexCache {
  import opened Dom
  import opened Selectors
  import Semantics

  /** `list` is the address of the selector list, when there is one. */
  datatype Query = Query(ofType: bool, fromEnd: bool, list: Option<nat>)

  /** Which siblings of `e` count; `m` answers for the query's selector list. */
  predicate Counted(t: Tree, q: Query, m: nat -> bool, y: nat, e: nat)
    requires IsElement(t, e)
  {
    && Siblings(t, y, e)
    && if q.ofType then Semantics.SameType(t, y, e) else q.list.Some? ==> m(y)
  }

  function Count(t: Tree, q: Query, m: nat -> bool, e: nat, lo: nat, hi: nat): (n: nat)
    requires IsElement(t, e)
    decreases if hi <= lo then 0 else hi - lo
  {
    if hi <= lo then 0
    else Count(t, q, m, e, lo, hi - 1) + if Counted(t, q, m, hi - 1, e) then 1 else 0
  }

  /** The plain count, without any cache. */
  function PlainIndex(t: Tree, q: Query, m: nat -> bool, e: nat): int
    requires IsElement(t, e)
  {
    1 + if q.fromEnd then Count(t, q, m, e, e + 1, |t.nodes|) else Count(t, q, m, e, 0, e)
  }

  /** Indices are only asked for elements that match the selector list themselves. */
  predicate Eligible(q: Query, m: nat -> bool, e: nat) {
    !q.ofType && q.list.Some? ==> m(e)
  }

  ghost predicate Holds(t: Tree, q: Query, m: nat -> bool, cache: map<nat, int>) {
    forall e | e in cache :: IsElement(t, e) && Eligible(q, m, e) && cache[e] == PlainIndex(t, q, m, e)
  }

  // ------------------------------------------------------------- counting

  lemma {:induction false} CountSplit(t: Tree, q: Query, m: nat -> bool, e: nat, lo: nat, mid: nat, hi: nat)
    requires IsElement(t, e) && lo <= mid <= hi
    ensures Count(t, q, m, e, lo, hi) == Count(t, q, m, e, lo, mid) + Count(t, q, m, e, mid, hi)
    decreases hi
  {
    if mid < hi {
      CountSplit(t, q, m, e, lo, mid, hi - 1);
    }
  }

  lemma {:induction false} CountNone(t: Tree, q: Query, m: nat -> bool, e: nat, lo: nat, hi: nat)
    requires IsElement(t, e) && forall y | lo <= y < hi :: !Counted(t, q, m, y, e)
    ensures Count(t, q, m, e, lo, hi) == 0
    decreases hi
  {
    if lo < hi {
      CountNone(t, q, m, e, lo, hi - 1);
    }
  }

  /** Two siblings that count for each other count the same siblings. */
  lemma {:induction false} CountFor(t: Tree, q: Query, m: nat -> bool, e: nat, y: nat, lo: nat, hi: nat)
    requires IsElement(t, e) && Counted(t, q, m, y, e)
    ensures Count(t, q, m, y, lo, hi) == Count(t, q, m, e, lo, hi)
    decreases hi
  {
    if lo < hi {
      CountFor(t, q, m, e, y, lo, hi - 1);
      assert Counted(t, q, m, hi - 1, y) <==> Counted(t, q, m, hi - 1, e);
    }
  }

  /** How the index of `e` follows from that of an earlier sibling `y` that counts. */
  lemma IndexFromEarlier(t: Tree, q: Query, m: nat -> bool, e: nat, y: nat)
    requires IsElement(t, e) && Counted(t, q, m, y, e) && y < e && Eligible(q, m, e)
    ensures var between := Count(t, q, m, e, y + 1, e);
            PlainIndex(t, q, m, e)
            == if q.fromEnd then PlainIndex(t, q, m, y) - (1 + between)
               else PlainIndex(t, q, m, y) + (1 + between)
  {
    if q.fromEnd {
      CountFor(t, q, m, e, y, y + 1, |t.nodes|);
      CountSplit(t, q, m, e, y + 1, e, |t.nodes|);
      CountSplit(t, q, m, e, e, e + 1, |t.nodes|);
      assert Counted(t, q, m, e, e);
      assert Count(t, q, m, e, e, e) == 0;
    } else {
      CountFor(t, q, m, e, y, 0, y);
      CountSplit(t, q, m, e, 0, y, e);
      CountSplit(t, q, m, e, y, y + 1, e);
      assert Count(t, q, m, e, y, y) == 0;
    }
  }

  lemma StepBack(t: Tree, q: Query, m: nat -> bool, e: nat, curr: nat, next: nat)
    requires IsElement(t, e) && IsElement(t, curr) && (curr == e || Siblings(t, curr, e)) && curr <= e
    requires PrevSiblingElement(t, curr) == Some(next)
    ensures Siblings(t, next, e)
    ensures Count(t, q, m, e, next + 1, e) == Count(t, q, m, e, curr, e)
    ensures Count(t, q, m, e, next, e) == Count(t, q, m, e, curr, e) + if Counted(t, q, m, next, e) then 1 else 0
  {
    CountSplit(t, q, m, e, next + 1, curr, e);
    forall y | next + 1 <= y < curr
      ensures !Counted(t, q, m, y, e)
    {
      assert !Siblings(t, y, curr);
    }
    CountNone(t, q, m, e, next + 1, curr);
    CountSplit(t, q, m, e, next, next + 1, e);
    assert Count(t, q, m, e, next, next) == 0;
  }

  lemma StepForward(t: Tree, q: Query, m: nat -> bool, e: nat, curr: nat, next: nat)
    requires IsElement(t, e) && IsElement(t, curr) && (curr == e || Siblings(t, curr, e)) && e <= curr
    requires NextSiblingElement(t, curr) == Some(next)
    ensures Siblings(t, next, e)
    ensures Count(t, q, m, e, e + 1, next + 1)
            == Count(t, q, m, e, e + 1, curr + 1) + if Counted(t, q, m, next, e) then 1 else 0
  {
    CountSplit(t, q, m, e, e + 1, curr + 1, next);
    forall y | curr + 1 <= y < next
      ensures !Counted(t, q, m, y, e)
    {
      assert !Siblings(t, y, curr);
    }
    CountNone(t, q, m, e, curr + 1, next);
  }

  lemma NoMoreSiblings(t: Tree, q: Query, m: nat -> bool, e: nat, curr: nat)
    requires IsElement(t, e) && IsElement(t, curr) && (curr == e || Siblings(t, curr, e))
    ensures curr <= e && PrevSiblingElement(t, curr).None? ==>
              Count(t, q, m, e, 0, e) == Count(t, q, m, e, curr, e)
    ensures e <= curr && NextSiblingElement(t, curr).None? ==>
              Count(t, q, m, e, e + 1, |t.nodes|) == Count(t, q, m, e, e + 1, curr + 1)
  {
    if curr <= e && PrevSiblingElement(t, curr).None? {
      CountSplit(t, q, m, e, 0, curr, e);
      forall y | 0 <= y < curr
        ensures !Counted(t, q, m, y, e)
      {
        assert !Siblings(t, y, curr);
      }
      CountNone(t, q, m, e, 0, curr);
    }
    if e <= curr && NextSiblingElement(t, curr).None? {
      CountSplit(t, q, m, e, e + 1, curr + 1, |t.nodes|);
      forall y | curr + 1 <= y < |t.nodes|
        ensures !Counted(t, q, m, y, e)
      {
        assert !Siblings(t, y, curr);
      }
      CountNone(t, q, m, e, curr + 1, |t.nodes|);
    }
  }

  // ------------------------------------------------------------- the cache

  class NthIndexCache {
    var nth: map<nat, int>
    var nthLast: map<nat, int>
    var nthOfType: map<nat, int>
    var nthLastOfType: map<nat, int>
    var nthOfSelectors: map<nat, map<nat, int>>
    var nthLastOfSelectors: map<nat, map<nat, int>>

    constructor ()
      ensures forall q :: Get(q) == map[]
    {
      nth, nthLast, nthOfType, nthLastOfType := map[], map[], map[], map[];
      nthOfSelectors, nthLastOfSelectors := map[], map[];
    }

    /** The map for a query; an address seen for the first time has an empty one. */
    function Get(q: Query): map<nat, int>
      reads this
    {
      if q.ofType then (if q.fromEnd then nthLastOfType else nthOfType)
      else if q.list.Some? then
        var caches := if q.fromEnd then nthLastOfSelectors else nthOfSelectors;
        if q.list.value in caches then caches[q.list.value] else map[]
      else if q.fromEnd then nthLast else nth
    }

    /** Queries that share one map. */
    static predicate SameMap(q: Query, r: Query) {
      q.ofType == r.ofType && q.fromEnd == r.fromEnd && (q.ofType || q.list == r.list)
    }

    method Insert(q: Query, e: nat, index: int)
      modifies this
      ensures forall r :: Get(r) == if SameMap(q, r) then old(Get(q))[e := index] else old(Get(r))
    {
      var entries := Get(q)[e := index];
      if q.ofType {
        if q.fromEnd { nthLastOfType := entries; } else { nthOfType := entries; }
      } else if q.list.Some? {
        if q.fromEnd {
          nthLastOfSelectors := nthLastOfSelectors[q.list.value := entries];
        } else {
          nthOfSelectors := nthOfSelectors[q.list.value := entries];
        }
      } else {
        if q.fromEnd { nthLast := entries; } else { nth := entries; }
      }
    }

    /** Every stored index is the plain count; `sem` says what each selector list
        matches. */
    ghost predicate Valid(t: Tree, sem: nat -> (nat -> bool))
      reads this
    {
      forall q: Query :: Holds(t, q, MatchesOf(q, sem), Get(q))
    }

    static ghost function MatchesOf(q: Query, sem: nat -> (nat -> bool)): nat -> bool {
      if q.list.Some? then sem(q.list.value) else (e: nat) => true
    }

    /** Lookup, or compute with the help of stored indices and store. */
    method Index(t: Tree, q: Query, m: nat -> bool, e: nat) returns (index: int)
      requires IsElement(t, e)
      modifies this
      ensures e in old(Get(q)) ==> index == old(Get(q))[e]
      ensures Holds(t, q, m, old(Get(q))) && Eligible(q, m, e) ==> index == PlainIndex(t, q, m, e)
      ensures forall r :: Get(r) == if SameMap(q, r) then old(Get(q))[e := index] else old(Get(r))
    {
      if e in Get(q) {
        index := Get(q)[e];
        assert Get(q)[e := index] == Get(q);
        assert forall r :: SameMap(q, r) ==> Get(r) == Get(q);
        return;
      }
      index := NthChildIndex(t, q, m, e, true);
      Insert(q, e, index);
    }

    /** Walks siblings, stopping at the first stored index when the cache is used. */
    method NthChildIndex(t: Tree, q: Query, m: nat -> bool, e: nat, checkCache: bool) returns (index: int)
      requires IsElement(t, e)
      ensures !checkCache || (Holds(t, q, m, Get(q)) && Eligible(q, m, e)) ==> index == PlainIndex(t, q, m, e)
    {
      var cache := Get(q);
      if checkCache && q.fromEnd && cache != map[] {
        var found := FromEarlierSibling(t, q, m, e, cache);
        if found.Some? {
          return found.value;
        }
      }
      var curr: nat := e;
      index := 1;
      while true
        invariant IsElement(t, curr) && (curr == e || Siblings(t, curr, e))
        invariant q.fromEnd ==> e <= curr && index == 1 + Count(t, q, m, e, e + 1, curr + 1)
        invariant !q.fromEnd ==> curr <= e && index == 1 + Count(t, q, m, e, curr, e)
        decreases if q.fromEnd then |t.nodes| - curr else curr
      {
        var next := if q.fromEnd then NextSiblingElement(t, curr) else PrevSiblingElement(t, curr);
        if next.None? {
          NoMoreSiblings(t, q, m, e, curr);
          return;
        }
        if q.fromEnd {
          StepForward(t, q, m, e, curr, next.value);
        } else {
          StepBack(t, q, m, e, curr, next.value);
        }
        curr := next.value;
        if !Counted(t, q, m, curr, e) {
          continue;
        }
        if !q.fromEnd && checkCache && curr in cache {
          index := cache[curr] + index;
          if Holds(t, q, m, cache) && Eligible(q, m, e) {
            IndexFromEarlier(t, q, m, e, curr);
          }
          return;
        }
        index := index + 1;
      }
    }

    /** The index from the end, if an earlier sibling has one. */
    static method FromEarlierSibling(t: Tree, q: Query, m: nat -> bool, e: nat, cache: map<nat, int>)
      returns (index: Option<int>)
      requires IsElement(t, e) && q.fromEnd
      ensures index.Some? && Holds(t, q, m, cache) && Eligible(q, m, e) ==> index.value == PlainIndex(t, q, m, e)
    {
      var n := 1;
      var curr: nat := e;
      while true
        invariant IsElement(t, curr) && (curr == e || Siblings(t, curr, e)) && curr <= e
        invariant n == 1 + Count(t, q, m, e, curr, e)
        decreases curr
      {
        var prev := PrevSiblingElement(t, curr);
        if prev.None? {
          return None;
        }
        StepBack(t, q, m, e, curr, prev.value);
        curr := prev.value;
        if !Counted(t, q, m, curr, e) {
          continue;
        }
        if curr in cache {
          if Holds(t, q, m, cache) && Eligible(q, m, e) {
            IndexFromEarlier(t, q, m, e, curr);
          }
          return Some(cache[curr] - n);
        }
        n := n + 1;
      }
    }

    /** Any run of queries in which each selector list keeps one meaning: every answer
        is the plain count, and so is every index left in the cache. */
    method Run(t: Tree, sem: nat -> (nat -> bool), queries: seq<(Query, nat)>) returns (answers: seq<int>)
      requires Valid(t, sem)
      requires forall i | 0 <= i < |queries| ::
                 && IsElement(t, queries[i].1)
                 && Eligible(queries[i].0, MatchesOf(queries[i].0, sem), queries[i].1)
      modifies this
      ensures Valid(t, sem) && |answers| == |queries|
      ensures forall i | 0 <= i < |queries| ::
                answers[i] == PlainIndex(t, queries[i].0, MatchesOf(queries[i].0, sem), queries[i].1)
    {
      answers := [];
      for n := 0 to |queries|
        invariant Valid(t, sem) && |answers| == n
        invariant forall i | 0 <= i < n ::
                    answers[i] == PlainIndex(t, queries[i].0, MatchesOf(queries[i].0, sem), queries[i].1)
      {
        var q, e := queries[n].0, queries[n].1;
        var m: nat -> bool := if q.list.Some? then sem(q.list.value) else (e: nat) => true;
        label before:
        assert Holds(t, q, MatchesOf(q, sem), Get(q));
        var answer := Index(t, q, m, e);
        forall r: Query
          ensures Holds(t, r, MatchesOf(r, sem), Get(r))
        {
          assert Holds(t, r, MatchesOf(r, sem), old@before(Get(r)));
          if SameMap(q, r) {
            ShareIndices(t, q, r, MatchesOf(q, sem), MatchesOf(r, sem), e);
          }
        }
        answers := answers + [answer];
      }
    }
  }

  lemma {:induction false} ShareCounts(t: Tree, q: Query, r: Query, m: nat -> bool, k: nat -> bool, e: nat, lo: nat,
                                       hi: nat)
    requires IsElement(t, e) && NthIndexCache.SameMap(q, r) && (q.ofType || m == k || q.list.None?)
    ensures Count(t, q, m, e, lo, hi) == Count(t, r, k, e, lo, hi)
    decreases hi
  {
    if lo < hi {
      ShareCounts(t, q, r, m, k, e, lo, hi - 1);
    }
  }

  lemma ShareIndices(t: Tree, q: Query, r: Query, m: nat -> bool, k: nat -> bool, e: nat)
    requires IsElement(t, e) && NthIndexCache.SameMap(q, r) && (q.ofType || m == k || q.list.None?)
    ensures PlainIndex(t, q, m, e) == PlainIndex(t, r, k, e)
    ensures Eligible(q, m, e) == Eligible(r, k, e)
  {
    ShareCounts(t, q, r, m, k, e, e + 1, |t.nodes|);
    ShareCounts(t, q, r, m, k, e, 0, e);
  }
}
