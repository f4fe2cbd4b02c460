/** Nothing that an ancestor has to carry is left out of the hashes of a selector while there is room, and a hash
    that the filter lacks rejects: the fast reject does not only never err, it also works. */
module HashCompleteness {
  import opened Dom
  import opened Selectors
  import opened Layout
  import opened BloomFilter
  import opened AncestorHashes
  import opened FastReject

  /** The component asks its element for `name`, and that is worth a hash: names in lower case
      only, classes and ids unless their case is ignored, no attribute that every element has. */
  predicate AsksFor(quirks: bool, x: Component, name: Atom) {
    || (x == Class(name) && !quirks)
    || (x == ID(name) && !quirks)
    || x == LocalName(name, name)
    || x == DefaultNamespace(name)
    || (x.Namespace? && x.nsUrl == name)
    || (name !in {"class", "id", "style"} && AsksForAttribute(x, name))
  }

  predicate AsksForAttribute(x: Component, name: Atom) {
    || (x.AttributeInNoNamespace? && x.attrLocal == name)
    || x == AttributeInNoNamespaceExists(name, name)
    || (x.AttributeOther? && x.otherName == name == x.otherNameLower)
  }

  /** Compounds are not empty, in the selector itself and in single nested ones. */
  predicate Whole(s: seq<Component>)
    decreases s, 1
  {
    forall i {:trigger WholeAt(s, i)} | 0 <= i < |s| :: WholeAt(s, i)
  }

  predicate WholeAt(s: seq<Component>, i: nat)
    requires i < |s|
    decreases s, 0
  {
    StartsCompound(s, i) && WholeComponent(s[i])
  }

  predicate StartsCompound(s: seq<Component>, i: nat)
    requires i < |s|
  {
    s[i].CombinatorItem? ==> i + 1 < |s| && !s[i + 1].CombinatorItem?
  }

  predicate WholeComponent(x: Component)
    decreases x
  {
    match x
    case Is(list) => |list| == 1 ==> Whole(list[0].components)
    case Where(list) => |list| == 1 ==> Whole(list[0].components)
    case _ => true
  }

  /** No combinator stands between `j` and `i`. */
  predicate Clear(s: seq<Component>, j: int, i: nat) {
    forall k | j < k < i && 0 <= k < |s| :: !s[k].CombinatorItem?
  }

  /** An ancestor combinator at `j`, and nothing but components from there to `i`. */
  predicate LeadsTo(s: seq<Component>, j: nat, i: nat) {
    j < i < |s| && s[j].CombinatorItem? && !IsSiblingCombinator(s[j].combinator) && Clear(s, j, i)
  }

  /** The component at `i` belongs to a compound next to an ancestor combinator. */
  ghost predicate OnAncestor(s: seq<Component>, i: nat) {
    i < |s| && !s[i].CombinatorItem? && exists j: nat :: LeadsTo(s, j, i)
  }

  /** The same, or it belongs to the first compound. */
  ghost predicate Reached(s: seq<Component>, i: nat) {
    i < |s| && !s[i].CombinatorItem? && (Clear(s, -1, i) || OnAncestor(s, i))
  }

  /** Something on the element of the component, or on its ancestors, has the masked hash `m`. */
  ghost predicate Needs(hash: Hasher, quirks: bool, x: Component, m: bv32)
    decreases x
  {
    || (exists name: Atom :: AsksFor(quirks, x, name) && m == hash(name) & BLOOM_HASH_MASK)
    || (x.Is? && |x.isList| == 1 && NeedsAny(hash, quirks, x.isList[0].components, m))
    || (x.Where? && |x.whereList| == 1 && NeedsAny(hash, quirks, x.whereList[0].components, m))
  }

  ghost predicate NeedsAny(hash: Hasher, quirks: bool, s: seq<Component>, m: bv32)
    decreases s
  {
    exists i: nat | i < |s| :: Reached(s, i) && Needs(hash, quirks, s[i], m)
  }

  /** Something on an ancestor of the subject has the masked hash `m`. */
  ghost predicate AncestorNeeds(hash: Hasher, quirks: bool, s: seq<Component>, m: bv32)
    decreases s, 1
  {
    exists i: nat | i < |s| :: PartNeedsAt(hash, quirks, s, i, m) || SubjectNeedsAt(hash, quirks, s, i, m)
  }

  ghost predicate PartNeedsAt(hash: Hasher, quirks: bool, s: seq<Component>, i: nat, m: bv32)
    requires i < |s|
    decreases s, 0
  {
    OnAncestor(s, i) && Needs(hash, quirks, s[i], m)
  }

  ghost predicate SubjectNeedsAt(hash: Hasher, quirks: bool, s: seq<Component>, i: nat, m: bv32)
    requires i < |s|
    decreases s, 0
  {
    Clear(s, -1, i) && SubjectNeeds(hash, quirks, s[i], m)
  }

  ghost predicate SubjectNeeds(hash: Hasher, quirks: bool, x: Component, m: bv32)
    decreases x
  {
    || (x.Is? && |x.isList| == 1 && AncestorNeeds(hash, quirks, x.isList[0].components, m))
    || (x.Where? && |x.whereList| == 1 && AncestorNeeds(hash, quirks, x.whereList[0].components, m))
  }

  // --------------------------------------------------- what an element has

  lemma {:induction false} AttrHashesAre(hash: Hasher, attrs: seq<Attribute>, h: bv32)
    ensures h in AttrHashes(hash, attrs)
            <==> exists a | a in attrs :: a.name !in {"class", "id", "style"} && h == hash(a.name)
  {
    if attrs != [] {
      AttrHashesAre(hash, attrs[1..], h);
      assert forall a :: a in attrs <==> a == attrs[0] || a in attrs[1..];
    }
  }

  /** An element's hashes are those of its name, namespace, id, classes and other attributes,
      and no more. */
  lemma ElementHashesAre(hash: Hasher, d: ElementData, h: bv32)
    ensures h in ElementHashes(hash, d)
            <==> || h == hash(d.localName) || h == hash(d.ns)
                 || (d.id.Some? && h == hash(d.id.value))
                 || (exists c | c in d.classes :: h == hash(c))
                 || exists a | a in d.attrs :: a.name !in {"class", "id", "style"} && h == hash(a.name)
  {
    AttrHashesAre(hash, d.attrs, h);
    var all, attrs := ElementHashes(hash, d), AttrHashes(hash, d.attrs);
    var front := [hash(d.localName), hash(d.ns)] + if d.id.Some? then [hash(d.id.value)] else [];
    var classes := all[|front|..|front| + |d.classes|];
    assert all == front + classes + attrs;
    ClassHashesAre(hash, d.classes, classes, h);
  }

  lemma ClassHashesAre(hash: Hasher, classes: seq<Atom>, hashes: seq<bv32>, h: bv32)
    requires |hashes| == |classes| && forall i | 0 <= i < |classes| :: hashes[i] == hash(classes[i])
    ensures h in hashes <==> exists c | c in classes :: h == hash(c)
  {
    if c :| c in classes && h == hash(c) {
      var i :| 0 <= i < |classes| && classes[i] == c;
      assert hashes[i] == h;
    }
  }

  // ----------------------------------------------- what reading gets to

  /** Skipping stops right after the first ancestor combinator. */
  lemma {:induction false} SkipStopsAt(s: seq<Component>, j: nat) returns (first: nat)
    requires j < |s| && s[j].CombinatorItem? && !IsSiblingCombinator(s[j].combinator)
    ensures first <= j && SkipUntilAncestor(s) == s[first + 1..]
    ensures s[first].CombinatorItem? && !IsSiblingCombinator(s[first].combinator)
    decreases |s|
  {
    var k := CompoundLen(s);
    if IsSiblingCombinator(s[k].combinator) {
      var rest := s[k + 1..];
      first := SkipStopsAt(rest, j - k - 1);
      assert rest[first + 1..] == s[first + k + 2..];
      first := first + k + 1;
    } else {
      first := k;
    }
  }

  /** `rest` is what is left of `s` from position `n` on. */
  predicate IsTail(s: seq<Component>, rest: seq<Component>, n: nat) {
    n + |rest| == |s| && forall k | 0 <= k < |rest| :: rest[k] == s[n + k]
  }

  lemma WholeRest(s: seq<Component>, rest: seq<Component>, n: nat)
    requires Whole(s) && IsTail(s, rest, n)
    ensures Whole(rest)
  {
    forall i | 0 <= i < |rest|
      ensures WholeAt(rest, i)
    {
      assert WholeAt(s, n + i);
    }
  }

  /** Reading whole compounds from the start of `s` gets to `x` at position `i`. */
  ghost predicate GetsTo(s: seq<Component>, i: nat, x: Component) {
    Whole(s) && Reached(s, i) && s[i] == x
  }

  /** A component next to a combinator is reached when reading starts at or before it. */
  lemma ReachedInRest(s: seq<Component>, rest: seq<Component>, n: nat, j: nat, i: nat)
    requires Whole(s) && LeadsTo(s, j, i) && n <= i && !s[i].CombinatorItem? && IsTail(s, rest, n)
    ensures GetsTo(rest, i - n, s[i])
  {
    WholeRest(s, rest, n);
    if j < n {
      assert Clear(rest, -1, i - n);
    } else {
      assert LeadsTo(rest, j - n, i - n);
    }
  }

  lemma SkipLeavesTail(s: seq<Component>, j: nat, part: seq<Component>) returns (n: nat)
    requires j < |s| && s[j].CombinatorItem? && !IsSiblingCombinator(s[j].combinator) && part == SkipUntilAncestor(s)
    ensures 0 < n <= j + 1 && s[n - 1].CombinatorItem? && IsTail(s, part, n)
  {
    var first := SkipStopsAt(s, j);
    n := first + 1;
  }

  lemma ReachedAfterSkip(s: seq<Component>, i: nat, part: seq<Component>) returns (k: nat)
    requires OnAncestor(s, i) && Whole(s) && part == SkipUntilAncestor(s)
    ensures GetsTo(part, k, s[i])
  {
    var j: nat :| LeadsTo(s, j, i);
    var n := SkipLeavesTail(s, j, part);
    ReachedInRest(s, part, n, j, i);
    k := i - n;
  }

  /** The same, reading on at a combinator. */
  lemma ReachedAfterCombinator(s: seq<Component>, i: nat, rest: seq<Component>) returns (k: nat)
    requires Whole(s) && s != [] && s[0].CombinatorItem? && Reached(s, i) && rest == AfterCombinator(s)
    ensures GetsTo(rest, k, s[i])
  {
    var j := LeadingCombinator(s, i);
    var n := AfterCombinatorIsAt(s, j, rest);
    ReachedInRest(s, rest, n, j, i);
    k := i - n;
  }

  lemma LeadingCombinator(s: seq<Component>, i: nat) returns (j: nat)
    requires s != [] && s[0].CombinatorItem? && Reached(s, i)
    ensures LeadsTo(s, j, i)
  {
    assert i > 0 && !Clear(s, -1, i);
    j :| LeadsTo(s, j, i);
  }

  /** What follows a combinator is not empty, nor does it start with another one. */
  lemma TailStartsCompound(s: seq<Component>, rest: seq<Component>, n: nat)
    requires Whole(s) && IsTail(s, rest, n) && 0 < n <= |s| && s[n - 1].CombinatorItem?
    ensures rest != [] && !rest[0].CombinatorItem?
  {
    assert WholeAt(s, n - 1);
  }

  lemma AfterCombinatorIsAt(s: seq<Component>, j: nat, after: seq<Component>) returns (n: nat)
    requires Whole(s) && s != [] && s[0].CombinatorItem? && after == AfterCombinator(s)
    requires j < |s| && s[j].CombinatorItem? && !IsSiblingCombinator(s[j].combinator)
    ensures 0 < n <= j + 1 && IsTail(s, after, n)
  {
    var rest := s[1..];
    var next := if IsSiblingCombinator(s[0].combinator) then SkipUntilAncestor(rest) else rest;
    n := NextIsAt(s, j, rest, next);
    TailStartsCompound(s, next, n);
    assert after == next;
  }

  lemma NextIsAt(s: seq<Component>, j: nat, rest: seq<Component>, next: seq<Component>) returns (n: nat)
    requires s != [] && s[0].CombinatorItem? && IsTail(s, rest, 1)
    requires next == if IsSiblingCombinator(s[0].combinator) then SkipUntilAncestor(rest) else rest
    requires j < |s| && s[j].CombinatorItem? && !IsSiblingCombinator(s[j].combinator)
    ensures 0 < n <= j + 1 && IsTail(s, next, n) && s[n - 1].CombinatorItem?
  {
    n := 1;
    if IsSiblingCombinator(s[0].combinator) {
      assert rest[j - 1] == s[j];
      n := SkipLeavesTail(rest, j - 1, next);
      TailOfTail(s, rest, next, n);
      n := n + 1;
    }
  }

  lemma TailOfTail(s: seq<Component>, rest: seq<Component>, next: seq<Component>, n: nat)
    requires IsTail(s, rest, 1) && IsTail(rest, next, n) && 0 < n
    ensures IsTail(s, next, n + 1) && rest[n - 1] == s[n]
  {
    forall k | 0 <= k < |next|
      ensures next[k] == s[n + 1 + k]
    {
      assert rest[n + k] == s[1 + (n + k)];
    }
  }

  lemma ReachedNext(s: seq<Component>, rest: seq<Component>, i: nat)
    requires Whole(s) && s != [] && !s[0].CombinatorItem? && i > 0 && Reached(s, i) && IsTail(s, rest, 1)
    ensures GetsTo(rest, i - 1, s[i])
  {
    WholeRest(s, rest, 1);
    if Clear(s, -1, i) {
      assert Clear(rest, -1, i - 1);
    } else {
      var j: nat :| LeadsTo(s, j, i);
      ReachedInRest(s, rest, 1, j, i);
    }
  }

  // --------------------------------------------------- nothing is left out

  lemma AskedIsRequired(hash: Hasher, quirks: bool, x: Component, name: Atom)
    requires AsksFor(quirks, x, name)
    ensures RequiredHash(hash, quirks, x) == Some(hash(name))
  {
  }

  lemma {:induction false} CollectComplete(hash: Hasher, quirks: bool, s: seq<Component>, acc: seq<bv32>, i: nat,
                                           m: bv32)
    requires |acc| <= MAX_HASHES && |Collect(hash, quirks, s, acc)| < MAX_HASHES && Whole(s)
    requires Reached(s, i) && Needs(hash, quirks, s[i], m)
    ensures m in Collect(hash, quirks, s, acc)
    decreases s
  {
    if s[0].CombinatorItem? {
      var rest := AfterCombinator(s);
      var k := ReachedAfterCombinator(s, i, rest);
      CollectComplete(hash, quirks, rest, acc, k, m);
    } else {
      var acc' := CollectComponent(hash, quirks, s[0], acc);
      if i == 0 {
        assert WholeAt(s, 0);
        ComponentComplete(hash, quirks, s[0], acc, m);
        assert m in acc';
      } else {
        var rest := s[1..];
        ReachedNext(s, rest, i);
        CollectComplete(hash, quirks, rest, acc', i - 1, m);
      }
    }
  }

  lemma {:induction false} ComponentComplete(hash: Hasher, quirks: bool, x: Component, acc: seq<bv32>, m: bv32)
    requires |acc| < MAX_HASHES && |CollectComponent(hash, quirks, x, acc)| < MAX_HASHES && WholeComponent(x)
    requires Needs(hash, quirks, x, m)
    ensures m in CollectComponent(hash, quirks, x, acc)
    decreases x
  {
    if name: Atom :| AsksFor(quirks, x, name) && m == hash(name) & BLOOM_HASH_MASK {
      AskedIsRequired(hash, quirks, x, name);
    } else {
      var s := if x.Is? then x.isList[0].components else x.whereList[0].components;
      var i: nat :| i < |s| && Reached(s, i) && Needs(hash, quirks, s[i], m);
      CollectComplete(hash, quirks, s, acc, i, m);
    }
  }

  /** Unless four hashes have been found, all that is needed of ancestors is among them. */
  lemma {:induction false} CollectAncestorsComplete(hash: Hasher, quirks: bool, s: seq<Component>, acc: seq<bv32>,
                                                    m: bv32)
    requires |acc| <= MAX_HASHES && |CollectAncestors(hash, quirks, s, acc)| < MAX_HASHES && Whole(s)
    requires AncestorNeeds(hash, quirks, s, m)
    ensures m in CollectAncestors(hash, quirks, s, acc)
    decreases s, 1
  {
    var i: nat :| i < |s| && (PartNeedsAt(hash, quirks, s, i, m) || SubjectNeedsAt(hash, quirks, s, i, m));
    var subject, part := CollectSubject(hash, quirks, s, CompoundLen(s), acc), SkipUntilAncestor(s);
    SubjectThenPart(hash, quirks, s, acc, subject, part);
    if PartNeedsAt(hash, quirks, s, i, m) {
      CollectPartComplete(hash, quirks, s, part, subject, i, m);
    } else {
      assert m in subject by {
        InFirstCompound(hash, quirks, s, i, m);
        SubjectComplete(hash, quirks, s, CompoundLen(s), acc, i, m);
      }
    }
  }

  lemma SubjectThenPart(hash: Hasher, quirks: bool, s: seq<Component>, acc: seq<bv32>, subject: seq<bv32>,
                        part: seq<Component>)
    requires |acc| <= MAX_HASHES && |CollectAncestors(hash, quirks, s, acc)| < MAX_HASHES
    requires subject == CollectSubject(hash, quirks, s, CompoundLen(s), acc) && part == SkipUntilAncestor(s)
    ensures |subject| < MAX_HASHES && CollectAncestors(hash, quirks, s, acc) == Collect(hash, quirks, part, subject)
    ensures subject <= Collect(hash, quirks, part, subject)
  {
  }

  lemma CollectPartComplete(hash: Hasher, quirks: bool, s: seq<Component>, part: seq<Component>, acc: seq<bv32>,
                            i: nat, m: bv32)
    requires part == SkipUntilAncestor(s) && Whole(s)
    requires |acc| <= MAX_HASHES && |Collect(hash, quirks, part, acc)| < MAX_HASHES
    requires i < |s| && PartNeedsAt(hash, quirks, s, i, m)
    ensures m in Collect(hash, quirks, part, acc)
  {
    var k := ReachedAfterSkip(s, i, part);
    CollectComplete(hash, quirks, part, acc, k, m);
  }

  lemma InFirstCompound(hash: Hasher, quirks: bool, s: seq<Component>, i: nat, m: bv32)
    requires i < |s| && SubjectNeedsAt(hash, quirks, s, i, m)
    ensures i < CompoundLen(s) && SubjectNeeds(hash, quirks, s[i], m)
  {
  }

  lemma {:induction false} SubjectComplete(hash: Hasher, quirks: bool, s: seq<Component>, n: nat, acc: seq<bv32>,
                                           i: nat, m: bv32)
    requires |acc| <= MAX_HASHES && i < n <= |s| && Whole(s)
    requires |CollectSubject(hash, quirks, s, n, acc)| < MAX_HASHES && SubjectNeeds(hash, quirks, s[i], m)
    ensures m in CollectSubject(hash, quirks, s, n, acc)
    decreases s, 0, n
  {
    var before := CollectSubject(hash, quirks, s, n - 1, acc);
    assert WholeAt(s, i);
    assert WholeComponent(s[i]);
    if i < n - 1 {
      SubjectComplete(hash, quirks, s, n - 1, acc, i, m);
    } else if s[i].Is? && |s[i].isList| == 1 {
      CollectAncestorsComplete(hash, quirks, s[i].isList[0].components, before, m);
    } else {
      CollectAncestorsComplete(hash, quirks, s[i].whereList[0].components, before, m);
    }
  }

  // -------------------------------------------------------------- rejecting

  /** A selector is rejected exactly when the filter lacks one of its hashes, if none of them
      looks like the end of the list. */
  lemma RejectsIffLacking(hashes: seq<bv32>, bf: CountingBloomFilter)
    requires |hashes| <= MAX_HASHES && bf.Valid()
    requires forall i | 0 <= i < |hashes| :: IsMasked(hashes[i]) && hashes[i] != 0
    ensures !SelectorMayMatch(Pack(hashes), bf) <==> exists m | m in hashes :: !bf.MightContainHash(m)
  {
    PackCarries(hashes);
    if !SelectorMayMatch(Pack(hashes), bf) {
      var m := RejectionNamesHash(Pack(hashes), hashes, bf);
    }
    WordsAreNotZero(hashes);
    if m :| m in hashes && !bf.MightContainHash(m) {
      var i :| 0 <= i < |hashes| && hashes[i] == m;
      assert HashAt(hashes, i) == m;
    }
  }

  lemma WordsAreNotZero(hashes: seq<bv32>)
    requires |hashes| <= MAX_HASHES
    requires forall i | 0 <= i < |hashes| :: IsMasked(hashes[i]) && hashes[i] != 0
    ensures var p := Pack(hashes);
            && (|hashes| > 0 ==> p.w0 != 0) && (|hashes| > 1 ==> p.w1 != 0) && (|hashes| > 2 ==> p.w2 != 0)
  {
    PackCarries(hashes);
  }

  /** What an ancestor has to carry and the filter lacks rejects the selector, unless four
      other hashes came first. */
  lemma LackingRejects(hash: Hasher, quirks: bool, s: seq<Component>, bf: CountingBloomFilter, m: bv32)
    requires bf.Valid() && Whole(s) && AncestorNeeds(hash, quirks, s, m) && !bf.MightContainHash(m)
    requires |CollectAncestors(hash, quirks, s, [])| < MAX_HASHES
    requires forall h | h in CollectAncestors(hash, quirks, s, []) :: h != 0
    ensures !SelectorMayMatch(Pack(CollectAncestors(hash, quirks, s, [])), bf)
  {
    var collected := CollectAncestors(hash, quirks, s, []);
    CollectAncestorsComplete(hash, quirks, s, [], m);
    AncestorHashesAreMasked(hash, quirks, s, []);
    assert forall i | 0 <= i < |collected| :: collected[i] in collected;
    RejectsIffLacking(collected, bf);
  }
}
