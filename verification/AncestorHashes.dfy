/** Fast rejection: hashes that every match needs among its ancestors are collected
    from a selector, packed four into three words, and looked up in a filter that
    holds the hashes of the element's ancestors. */
module AncestorHashes {
  import opened Dom
  import opened KleeneLogic
  import opened Selectors
  import opened Semantics
  import opened MatchResults
  import RelativeHints
  import opened Layout
  import opened BloomFilter

  type Hasher = Atom -> bv32

  predicate IsAttrNameExcluded(name: Atom) {
    name == "class" || name == "id" || name == "style"
  }

  function AttrHashes(hash: Hasher, attrs: seq<Attribute>): seq<bv32> {
    if attrs == [] then []
    else (if IsAttrNameExcluded(attrs[0].name) then [] else [hash(attrs[0].name)]) + AttrHashes(hash, attrs[1..])
  }

  /** Everything an element puts into the filter. */
  function ElementHashes(hash: Hasher, d: ElementData): seq<bv32> {
    [hash(d.localName), hash(d.ns)]
    + (if d.id.Some? then [hash(d.id.value)] else [])
    + seq(|d.classes|, i requires 0 <= i < |d.classes| => hash(d.classes[i]))
    + AttrHashes(hash, d.attrs)
  }

  // ------------------------------------------------------------ collecting

  /** The hash a simple selector needs from an element it matches. */
  function RequiredHash(hash: Hasher, quirks: bool, x: Component): Option<bv32> {
    match x
    case LocalName(name, lower) => if name == lower then Some(hash(name)) else None
    case DefaultNamespace(url) => Some(hash(url))
    case Namespace(_, url) => Some(hash(url))
    case ID(id) => if quirks then None else Some(hash(id))
    case Class(class_) => if quirks then None else Some(hash(class_))
    case AttributeInNoNamespace(name, _, _, _) => if IsAttrNameExcluded(name) then None else Some(hash(name))
    case AttributeInNoNamespaceExists(name, lower) =>
      if name != lower || IsAttrNameExcluded(name) then None else Some(hash(name))
    case AttributeOther(_, name, lower, _) =>
      if name != lower || IsAttrNameExcluded(name) then None else Some(hash(name))
    case _ => None
  }

  const MAX_HASHES: nat := 4

  /** Where the iterator over ancestor compounds stands after a combinator: an empty
      compound ends the iteration. */
  function AfterCombinator(s: seq<Component>): (r: seq<Component>)
    requires |s| > 0 && s[0].CombinatorItem?
    ensures |r| < |s| && r == s[|s| - |r|..]
    ensures r != [] ==> !r[0].CombinatorItem?
  {
    SkippedIsSuffix(s[1..]);
    var next := if IsSiblingCombinator(s[0].combinator) then SkipUntilAncestor(s[1..]) else s[1..];
    if next == [] || next[0].CombinatorItem? then [] else next
  }

  /** What is read next: at a combinator, the next compound an ancestor has to match. */
  function Upcoming(s: seq<Component>): (t: seq<Component>)
    ensures |t| <= |s| && (t != [] ==> !t[0].CombinatorItem?)
    ensures forall x | x in t :: x in s
  {
    if s != [] && s[0].CombinatorItem? then AfterCombinator(s) else s
  }

  /** Hashes collected from ancestor compounds, read from `s` on, added to `acc`. */
  function Collect(hash: Hasher, quirks: bool, s: seq<Component>, acc: seq<bv32>): (r: seq<bv32>)
    requires |acc| <= MAX_HASHES
    ensures acc <= r && |r| <= MAX_HASHES
    decreases s
  {
    if s == [] || |acc| == MAX_HASHES then acc
    else if s[0].CombinatorItem? then Collect(hash, quirks, AfterCombinator(s), acc)
    else Collect(hash, quirks, s[1..], CollectComponent(hash, quirks, s[0], acc))
  }

  /** The share of one simple selector on an ancestor. */
  function CollectComponent(hash: Hasher, quirks: bool, x: Component, acc: seq<bv32>): (r: seq<bv32>)
    requires |acc| < MAX_HASHES
    ensures acc <= r && |r| <= MAX_HASHES
    decreases x
  {
    var required := RequiredHash(hash, quirks, x);
    if required.Some? then acc + [required.value & BLOOM_HASH_MASK]
    else if x.Is? && |x.isList| == 1 then Collect(hash, quirks, x.isList[0].components, acc)
    else if x.Where? && |x.whereList| == 1 then Collect(hash, quirks, x.whereList[0].components, acc)
    else acc
  }

  /** Hashes for a whole selector: from `:is()` and `:where()` in the subject compound,
      then from the ancestor compounds. */
  function CollectAncestors(hash: Hasher, quirks: bool, s: seq<Component>, acc: seq<bv32>): (r: seq<bv32>)
    requires |acc| <= MAX_HASHES
    ensures acc <= r && |r| <= MAX_HASHES
    decreases s, 1
  {
    var subject := CollectSubject(hash, quirks, s, CompoundLen(s), acc);
    if |subject| == MAX_HASHES then subject else Collect(hash, quirks, SkipUntilAncestor(s), subject)
  }

  function CollectSubject(hash: Hasher, quirks: bool, s: seq<Component>, n: nat, acc: seq<bv32>): (r: seq<bv32>)
    requires |acc| <= MAX_HASHES && n <= |s|
    ensures acc <= r && |r| <= MAX_HASHES
    decreases s, 0, n
  {
    if n == 0 then acc
    else CollectSubjectComponent(hash, quirks, s[n - 1], CollectSubject(hash, quirks, s, n - 1, acc))
  }

  function CollectSubjectComponent(hash: Hasher, quirks: bool, x: Component, acc: seq<bv32>): (r: seq<bv32>)
    requires |acc| <= MAX_HASHES
    ensures acc <= r && |r| <= MAX_HASHES
    decreases x
  {
    if |acc| == MAX_HASHES then acc
    else if x.Is? && |x.isList| == 1 then CollectAncestors(hash, quirks, x.isList[0].components, acc)
    else if x.Where? && |x.whereList| == 1 then CollectAncestors(hash, quirks, x.whereList[0].components, acc)
    else acc
  }

  // ------------------------------------------- what is collected is needed

  /** `m` is the masked hash of something on element `e`. */
  ghost predicate HashOn(t: Tree, hash: Hasher, m: bv32, e: nat) {
    IsElement(t, e) && exists h | h in ElementHashes(hash, Data(t, e)) :: m == h & BLOOM_HASH_MASK
  }

  lemma HashIsOn(t: Tree, hash: Hasher, h: bv32, e: nat)
    requires IsElement(t, e) && h in ElementHashes(hash, Data(t, e))
    ensures HashOn(t, hash, h & BLOOM_HASH_MASK, e)
  {
  }

  lemma HashIsAmong(t: Tree, hash: Hasher, m: bv32, e: nat, els: seq<nat>)
    requires HashOn(t, hash, m, e) && e in els
    ensures HashAmong(t, hash, m, els)
  {
  }

  /** `m` is the masked hash of something on one of the elements `els`. */
  ghost predicate HashAmong(t: Tree, hash: Hasher, m: bv32, els: seq<nat>) {
    exists e | e in els :: HashOn(t, hash, m, e)
  }

  lemma HashAmongMore(t: Tree, hash: Hasher, m: bv32, els: seq<nat>, more: seq<nat>)
    requires HashAmong(t, hash, m, els) && forall x | x in els :: x in more
    ensures HashAmong(t, hash, m, more)
  {
    var e :| e in els && HashOn(t, hash, m, e);
    assert e in more;
  }

  lemma {:induction false} AttrHashesContain(hash: Hasher, attrs: seq<Attribute>, i: nat)
    requires i < |attrs| && !IsAttrNameExcluded(attrs[i].name)
    ensures hash(attrs[i].name) in AttrHashes(hash, attrs)
  {
    if i > 0 {
      AttrHashesContain(hash, attrs[1..], i - 1);
    }
  }

  lemma AttrHashIsIncluded(hash: Hasher, d: ElementData, name: Atom)
    requires !IsAttrNameExcluded(name) && exists i :: 0 <= i < |d.attrs| && d.attrs[i].name == name
    ensures hash(name) in ElementHashes(hash, d)
  {
    var i :| 0 <= i < |d.attrs| && d.attrs[i].name == name;
    AttrHashesContain(hash, d.attrs, i);
  }

  /** An element that matches a simple selector carries the hash the selector needs. */
  lemma RequiredHashIsCarried(hash: Hasher, quirks: bool, x: Component, d: ElementData)
    requires IsLeaf(x) && LeafMatches(quirks, x, d) && RequiredHash(hash, quirks, x).Some?
    ensures RequiredHash(hash, quirks, x).value in ElementHashes(hash, d)
  {
    var classes := seq(|d.classes|, i requires 0 <= i < |d.classes| => hash(d.classes[i]));
    match x {
      case Class(class_) =>
        var i :| 0 <= i < |d.classes| && CaseEq(CaseSensitive, d.classes[i], class_);
        assert classes[i] == hash(class_);
      case AttributeInNoNamespace(name, _, _, _) => AttrHashIsIncluded(hash, d, name);
      case AttributeInNoNamespaceExists(name, _) => AttrHashIsIncluded(hash, d, name);
      case AttributeOther(_, name, _, _) => AttrHashIsIncluded(hash, d, name);
      case LocalName(_, _) => assert ElementHashes(hash, d)[0] == hash(d.localName);
      case Namespace(_, _) => assert ElementHashes(hash, d)[1] == hash(d.ns);
      case DefaultNamespace(_) => assert ElementHashes(hash, d)[1] == hash(d.ns);
      case ID(_) => assert ElementHashes(hash, d)[2] == hash(d.id.value);
    }
  }

  lemma DropFirst(c: Context, s: seq<Component>, a: nat)
    requires IsElement(c.tree, a) && s != [] && !s[0].CombinatorItem? && !SelVal(c, s, a).False?
    ensures !SimpleVal(c, s[0], a).False? && !SelVal(c, s[1..], a).False?
  {
    var k := CompoundLen(s);
    var tail := s[1..];
    assert CompoundLen(tail) == k - 1;
    DropFirstOfCompound(c, s, a);
    if k < |s| {
      assert tail[k - 1] == s[k] && tail[k..] == s[k + 1..];
    }
  }

  lemma DropFirstOfCompound(c: Context, s: seq<Component>, a: nat)
    requires IsElement(c.tree, a) && CompoundLen(s) > 0 && !CompoundVal(c, s, a).False?
    ensures !SimpleVal(c, s[0], a).False? && !CompoundVal(c, s[1..], a).False?
  {
    assert CompoundLen(s[1..]) == CompoundLen(s) - 1;
    assert forall i | 0 <= i < CompoundLen(s) - 1 :: s[1..][i] == s[i + 1];
  }

  lemma NeedsRelated(c: Context, s: seq<Component>, a: nat) returns (y: nat)
    requires IsElement(c.tree, a) && s != [] && s[0].CombinatorItem? && !SelVal(c, s, a).False?
    ensures IsElement(c.tree, y) && Related(c.tree, s[0].combinator, y, a) && !SelVal(c, s[1..], y).False?
  {
    assert CompoundLen(s) == 0;
    y := RelativeHints.MatchNeedsCandidate(c, s, a);
  }

  /** Skipping to the next ancestor compound: some ancestor still matches from there. */
  lemma {:induction false} SkipSound(c: Context, s: seq<Component>, a: nat) returns (z: nat)
    requires IsElement(c.tree, a) && !SelVal(c, s, a).False? && SkipUntilAncestor(s) != []
    ensures IsElement(c.tree, z) && z in Ancestors(c.tree, a) && !SelVal(c, SkipUntilAncestor(s), z).False?
    decreases |s|
  {
    var comb, rest, y := SkipStep(c, s, a);
    z := y;
    if IsSiblingCombinator(comb) {
      z := SkipSound(c, rest, y);
    }
    AncestorsReached(c.tree, comb, y, a);
  }

  /** The first combinator: what is skipped with it, and an element that matches the rest. */
  lemma SkipStep(c: Context, s: seq<Component>, a: nat) returns (comb: Combinator, rest: seq<Component>, y: nat)
    requires IsElement(c.tree, a) && !SelVal(c, s, a).False? && SkipUntilAncestor(s) != []
    ensures |rest| < |s| && SkipUntilAncestor(s) == if IsSiblingCombinator(comb) then SkipUntilAncestor(rest) else rest
    ensures IsElement(c.tree, y) && Related(c.tree, comb, y, a) && !SelVal(c, rest, y).False?
  {
    var k := CompoundLen(s);
    comb, rest := s[k].combinator, s[k + 1..];
    SkipUnfolds(s, k, comb, rest);
    y := RelativeHints.MatchNeedsCandidate(c, s, a);
  }

  lemma SkipUnfolds(s: seq<Component>, k: nat, comb: Combinator, rest: seq<Component>)
    requires k == CompoundLen(s) < |s| && comb == s[k].combinator && rest == s[k + 1..]
    ensures SkipUntilAncestor(s) == if IsSiblingCombinator(comb) then SkipUntilAncestor(rest) else rest
  {
  }

  /** What lies left of a sibling, or an ancestor itself. */
  lemma AncestorsReached(t: Tree, comb: Combinator, y: nat, a: nat)
    requires IsElement(t, a) && IsElement(t, y) && Related(t, comb, y, a)
    ensures if IsSiblingCombinator(comb) then Ancestors(t, y) == Ancestors(t, a) else y in Ancestors(t, a)
  {
    if IsSiblingCombinator(comb) {
      SiblingsShareAncestors(t, y, a);
    } else {
      RelatedAncestor(t, comb, y, a);
    }
  }

  lemma RelatedAncestor(t: Tree, comb: Combinator, y: nat, a: nat)
    requires IsElement(t, a) && !IsSiblingCombinator(comb) && Related(t, comb, y, a)
    ensures y in Ancestors(t, a)
  {
    if comb.Child? {
      assert Ancestors(t, a)[0] == y;
    }
  }

  ghost function SelfAndAncestors(t: Tree, a: nat): seq<nat>
    requires IsElement(t, a)
  {
    [a] + Ancestors(t, a)
  }

  lemma AncestorsAbove(t: Tree, a: nat, z: nat)
    requires IsElement(t, a) && IsElement(t, z) && z in Ancestors(t, a)
    ensures forall x | x in SelfAndAncestors(t, z) :: x in Ancestors(t, a)
  {
    forall x | x in Ancestors(t, z)
      ensures x in Ancestors(t, a)
    {
      AncestorTransitive(t, a, z, x);
    }
  }

  /** Everything collected from ancestor compounds that match at `a` is found on `a` or
      on one of its ancestors. */
  lemma {:induction false} CollectSound(c: Context, hash: Hasher, s: seq<Component>, acc: seq<bv32>, a: nat)
    requires IsElement(c.tree, a) && |acc| <= MAX_HASHES && !SelVal(c, s, a).False?
    ensures forall m | m in Collect(hash, c.quirks, s, acc) ::
              m in acc || HashAmong(c.tree, hash, m, SelfAndAncestors(c.tree, a))
    decreases s
  {
    if s == [] || |acc| == MAX_HASHES {
    } else if s[0].CombinatorItem? {
      if AfterCombinator(s) != [] {
        var z := NextAncestor(c, s, a);
        CollectSound(c, hash, AfterCombinator(s), acc, z);
        AncestorsAbove(c.tree, a, z);
        forall m | m in Collect(hash, c.quirks, s, acc)
          ensures m in acc || HashAmong(c.tree, hash, m, SelfAndAncestors(c.tree, a))
        {
          if m !in acc {
            HashAmongMore(c.tree, hash, m, SelfAndAncestors(c.tree, z), SelfAndAncestors(c.tree, a));
          }
        }
      }
    } else {
      DropFirst(c, s, a);
      ComponentSound(c, hash, s[0], acc, a);
      CollectSound(c, hash, s[1..], CollectComponent(hash, c.quirks, s[0], acc), a);
    }
  }

  lemma NextAncestor(c: Context, s: seq<Component>, a: nat) returns (z: nat)
    requires IsElement(c.tree, a) && s != [] && s[0].CombinatorItem? && !SelVal(c, s, a).False?
    requires AfterCombinator(s) != []
    ensures IsElement(c.tree, z) && z in Ancestors(c.tree, a) && !SelVal(c, AfterCombinator(s), z).False?
  {
    var y := NeedsRelated(c, s, a);
    if IsSiblingCombinator(s[0].combinator) {
      z := SkipSound(c, s[1..], y);
      SiblingsShareAncestors(c.tree, y, a);
    } else {
      z := y;
      RelatedAncestor(c.tree, s[0].combinator, y, a);
    }
  }

  lemma SingleMatches(c: Context, list: SelectorList, a: nat)
    requires IsElement(c.tree, a) && |list| == 1 && !ListVal(c, list, a).False?
    ensures !SelVal(c, list[0].components, a).False?
  {
  }

  lemma RequiredIsAmong(c: Context, hash: Hasher, x: Component, a: nat)
    requires IsElement(c.tree, a) && RequiredHash(hash, c.quirks, x).Some? && !SimpleVal(c, x, a).False?
    ensures HashAmong(c.tree, hash, RequiredHash(hash, c.quirks, x).value & BLOOM_HASH_MASK,
      SelfAndAncestors(c.tree, a))
  {
    var h := RequiredHash(hash, c.quirks, x).value;
    RequiredHashIsCarried(hash, c.quirks, x, Data(c.tree, a));
    HashIsOn(c.tree, hash, h, a);
    HashIsAmong(c.tree, hash, h & BLOOM_HASH_MASK, a, SelfAndAncestors(c.tree, a));
  }

  lemma {:induction false} ComponentSound(c: Context, hash: Hasher, x: Component, acc: seq<bv32>, a: nat)
    requires IsElement(c.tree, a) && |acc| < MAX_HASHES && !SimpleVal(c, x, a).False?
    ensures forall m | m in CollectComponent(hash, c.quirks, x, acc) ::
              m in acc || HashAmong(c.tree, hash, m, SelfAndAncestors(c.tree, a))
    decreases x
  {
    if RequiredHash(hash, c.quirks, x).Some? {
      RequiredIsAmong(c, hash, x, a);
    } else if x.Is? && |x.isList| == 1 {
      SingleMatches(c, x.isList, a);
      CollectSound(c, hash, x.isList[0].components, acc, a);
    } else if x.Where? && |x.whereList| == 1 {
      SingleMatches(c, x.whereList, a);
      CollectSound(c, hash, x.whereList[0].components, acc, a);
    }
  }

  /** Everything collected for a selector that matches at `e` is found on an ancestor. */
  lemma {:induction false} CollectAncestorsSound(c: Context, hash: Hasher, s: seq<Component>, acc: seq<bv32>, e: nat)
    requires IsElement(c.tree, e) && |acc| <= MAX_HASHES && !SelVal(c, s, e).False?
    ensures forall m | m in CollectAncestors(hash, c.quirks, s, acc) ::
              m in acc || HashAmong(c.tree, hash, m, Ancestors(c.tree, e))
    decreases s, 1
  {
    var k := CompoundLen(s);
    CollectSubjectSound(c, hash, s, k, acc, e);
    var subject := CollectSubject(hash, c.quirks, s, k, acc);
    var part := SkipUntilAncestor(s);
    if |subject| < MAX_HASHES && part != [] {
      CollectPartSound(c, hash, s, subject, e);
    }
  }

  /** Everything collected from the ancestor compounds is found on an ancestor. */
  lemma CollectPartSound(c: Context, hash: Hasher, s: seq<Component>, acc: seq<bv32>, e: nat)
    requires IsElement(c.tree, e) && |acc| <= MAX_HASHES && !SelVal(c, s, e).False? && SkipUntilAncestor(s) != []
    ensures forall m | m in Collect(hash, c.quirks, SkipUntilAncestor(s), acc) ::
              m in acc || HashAmong(c.tree, hash, m, Ancestors(c.tree, e))
  {
    var part := SkipUntilAncestor(s);
    var z := SkipSound(c, s, e);
    CollectSound(c, hash, part, acc, z);
    AncestorsAbove(c.tree, e, z);
    forall m | m in Collect(hash, c.quirks, part, acc) && m !in acc
      ensures HashAmong(c.tree, hash, m, Ancestors(c.tree, e))
    {
      HashAmongMore(c.tree, hash, m, SelfAndAncestors(c.tree, z), Ancestors(c.tree, e));
    }
  }

  lemma {:induction false} CollectSubjectSound(c: Context, hash: Hasher, s: seq<Component>, n: nat, acc: seq<bv32>,
                                               e: nat)
    requires IsElement(c.tree, e) && |acc| <= MAX_HASHES && n <= CompoundLen(s) && !CompoundVal(c, s, e).False?
    ensures forall m | m in CollectSubject(hash, c.quirks, s, n, acc) ::
              m in acc || HashAmong(c.tree, hash, m, Ancestors(c.tree, e))
    decreases s, 0, n
  {
    if n > 0 {
      CollectSubjectSound(c, hash, s, n - 1, acc, e);
      var before := CollectSubject(hash, c.quirks, s, n - 1, acc);
      assert !SimpleVal(c, s[n - 1], e).False?;
      if |before| < MAX_HASHES {
        if s[n - 1].Is? && |s[n - 1].isList| == 1 {
          SingleMatches(c, s[n - 1].isList, e);
          CollectAncestorsSound(c, hash, s[n - 1].isList[0].components, before, e);
        } else if s[n - 1].Where? && |s[n - 1].whereList| == 1 {
          SingleMatches(c, s[n - 1].whereList, e);
          CollectAncestorsSound(c, hash, s[n - 1].whereList[0].components, before, e);
        }
      }
    }
  }

  // --------------------------------------------------------------- packing

  /** Three words; the fourth hash lives in their top bytes. */
  datatype PackedHashes = PackedHashes(w0: bv32, w1: bv32, w2: bv32)

  function PackFourth(h0: bv32, h1: bv32, h2: bv32, fourth: bv32): PackedHashes {
    PackedHashes(h0 | ((fourth & 0x000000ff) << 24),
                 h1 | ((fourth & 0x0000ff00) << 16),
                 h2 | ((fourth & 0x00ff0000) << 8))
  }

  function HashAt(hashes: seq<bv32>, i: nat): bv32 {
    if i < |hashes| then hashes[i] else 0
  }

  function Pack(hashes: seq<bv32>): PackedHashes
    requires |hashes| <= MAX_HASHES
  {
    if |hashes| == MAX_HASHES then PackFourth(hashes[0], hashes[1], hashes[2], hashes[3])
    else PackedHashes(HashAt(hashes, 0), HashAt(hashes, 1), HashAt(hashes, 2))
  }

  function FourthHash(p: PackedHashes): bv32 {
    ((p.w0 & 0xff000000) >> 24) | ((p.w1 & 0xff000000) >> 16) | ((p.w2 & 0xff000000) >> 8)
  }

  predicate IsMasked(h: bv32) {
    h & BLOOM_HASH_MASK == h
  }

  lemma MaskingIsMasked(h: bv32)
    ensures IsMasked(h & BLOOM_HASH_MASK)
  {
    assert (h & 0x00ffffff) & 0x00ffffff == h & 0x00ffffff;
  }

  lemma PackedBits(a: bv32, b: bv32, c: bv32, d: bv32)
    requires IsMasked(a) && IsMasked(b) && IsMasked(c) && IsMasked(d)
    ensures var p := PackFourth(a, b, c, d);
            && p.w0 & BLOOM_HASH_MASK == a && p.w1 & BLOOM_HASH_MASK == b && p.w2 & BLOOM_HASH_MASK == c
            && FourthHash(p) == d
  {
  }

  /** Packing loses nothing: the low 24 bits of each word are the first three hashes
      (zero where there is none), the top bytes are the fourth, or zero. */
  lemma PackRoundTrip(hashes: seq<bv32>)
    requires |hashes| <= MAX_HASHES && forall i | 0 <= i < |hashes| :: IsMasked(hashes[i])
    ensures var p := Pack(hashes);
            && p.w0 & BLOOM_HASH_MASK == HashAt(hashes, 0)
            && p.w1 & BLOOM_HASH_MASK == HashAt(hashes, 1)
            && p.w2 & BLOOM_HASH_MASK == HashAt(hashes, 2)
            && FourthHash(p) == HashAt(hashes, 3)
    ensures |hashes| < MAX_HASHES ==>
              Pack(hashes) == PackedHashes(HashAt(hashes, 0), HashAt(hashes, 1), HashAt(hashes, 2))
  {
    if |hashes| == MAX_HASHES {
      PackedBits(hashes[0], hashes[1], hashes[2], hashes[3]);
    } else {
      assert IsMasked(0);
    }
  }
}
