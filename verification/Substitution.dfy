/** Replacing `var()`, `env()` and `attr()` in custom-property values, which may refer to
    each other in a cycle.  Names being resolved are kept on a stack; meeting one again
    makes the reference invalid, so that its fallback is used. */
module Substitution {
  import opened Dom

  type Name = string

  /** What the serializer needs to know about a token at the edge of a text. */
  datatype TokenType = Nothing | Kind(kind: nat)

  /** A piece of CSS, with the types of its first and last token. */
  datatype Text = Text(css: string, first: TokenType, last: TokenType)

  const EMPTY: Text := Text("", Nothing, Nothing)

  datatype ReferenceKind = Var | Env | Attr

  /** A substitution function between `start` and `end` of the text it occurs in. */
  datatype Reference = Reference(
    kind: ReferenceKind,
    name: Name,
    start: nat,
    end: nat,
    fallback: Option<Fallback>,
    prev: TokenType,
    next: TokenType)

  /** A fallback runs from `start` to the closing parenthesis of its reference. */
  datatype Fallback = Fallback(start: nat, first: TokenType, last: TokenType, refs: seq<Reference>)

  datatype VariableValue = VariableValue(text: Text, refs: seq<Reference>)

  datatype Variable = Variable(value: VariableValue, attrTainted: bool)

  datatype Substituted = Substituted(text: Text, attrTainted: bool)

  /** The variables in scope, the answers of `env()` and `attr()`, and which tokens must
      be kept apart by a comment. */
  datatype World = World(
    vars: map<Name, Variable>,
    env: Name -> Option<Substituted>,
    attr: Reference -> Option<Substituted>,
    separates: (TokenType, TokenType) -> bool)

  const MAX_VALUE_LENGTH: nat := 2 * 1024 * 1024

  /** References lie in order within a stretch of the text, and so do the references of
      each fallback within the fallback. */
  predicate Fits(css: string, start: nat, end: nat, refs: seq<Reference>)
    decreases refs
  {
    if refs == [] then start <= end <= |css|
    else
      && start <= refs[0].start < refs[0].end <= end <= |css|
      && FallbackFits(css, refs[0])
      && Fits(css, refs[0].end, end, refs[1..])
  }

  predicate FallbackFits(css: string, r: Reference)
    decreases r
  {
    r.fallback.Some? ==>
      && r.start < r.fallback.value.start <= r.end - 1
      && Fits(css, r.fallback.value.start, r.end - 1, r.fallback.value.refs)
  }

  predicate ValueFits(v: VariableValue) {
    Fits(v.text.css, 0, |v.text.css|, v.refs)
  }

  ghost predicate ValidWorld(w: World) {
    && (forall n | n in w.vars :: ValueFits(w.vars[n].value))
    && forall t: TokenType :: !w.separates(Nothing, t)
  }

  // --------------------------------------------------------- joining texts

  const SEPARATOR: string := "/**/"

  function Push(w: World, t: Text, p: Text): Text {
    if p.css == "" then t
    else Text(t.css + (if w.separates(t.last, p.first) then SEPARATOR else "") + p.css,
              if t.first.Nothing? then p.first else t.first,
              p.last)
  }

  /** Between two texts, a comment exactly where their tokens would run together. */
  function Gap(w: World, left: TokenType, right: TokenType): string {
    if w.separates(left, right) then "/**/" else ""
  }

  function PushChecked(w: World, t: Text, p: Text): Option<Text> {
    if |t.css| + |p.css| > MAX_VALUE_LENGTH then None else Some(Push(w, t, p))
  }

  /** The text being put together. */
  class ValueBuilder {
    var css: string
    var first: TokenType
    var last: TokenType

    ghost function Value(): Text
      reads this
    {
      Text(css, first, last)
    }

    constructor ()
      ensures Value() == EMPTY
    {
      css, first, last := "", Nothing, Nothing;
    }

    method Append(w: World, p: Text) returns (ok: bool)
      modifies this
      ensures ok <==> PushChecked(w, old(Value()), p).Some?
      ensures Value() == if ok then Push(w, old(Value()), p) else old(Value())
      ensures ok <==> |old(css)| + |p.css| <= MAX_VALUE_LENGTH
      ensures ok && p.css != "" ==>
                && css == old(css) + Gap(w, old(last), p.first) + p.css
                && first == (if old(first).Nothing? then p.first else old(first))
                && last == p.last
      ensures !ok || p.css == "" ==> Value() == old(Value())
    {
      if |css| + |p.css| > MAX_VALUE_LENGTH {
        return false;
      }
      if p.css == "" {
        return true;
      }
      if first.Nothing? {
        first := p.first;
      }
      if w.separates(last, p.first) {
        css := css + SEPARATOR;
      }
      css := css + p.css;
      last := p.last;
      ok := true;
    }
  }

  // ------------------------------------------------- substitution as it runs

  function Unseen(w: World, seen: seq<Name>): set<Name> {
    w.vars.Keys - set n | n in seen
  }

  /** A stretch of text with its references replaced; `None` when it is invalid. */
  ghost function SubstChunk(w: World, css: string, start: nat, end: nat, first: TokenType, last: TokenType,
                            refs: seq<Reference>, seen: seq<Name>): Option<Substituted>
    requires ValidWorld(w) && Fits(css, start, end, refs)
    decreases Unseen(w, seen), refs, 2
  {
    if start == end then Some(Substituted(EMPTY, false))
    else if refs == [] then Some(Substituted(Text(css[start..end], first, last), false))
    else SubstLoop(w, css, start, end, last, refs, seen, EMPTY, first, start, false)
  }

  /** The rest of the loop over references: `acc` is what has been put together up to
      position `cur`. */
  ghost function SubstLoop(w: World, css: string, start: nat, end: nat, last: TokenType, refs: seq<Reference>,
                           seen: seq<Name>, acc: Text, nextType: TokenType, cur: nat,
                           tainted: bool): Option<Substituted>
    requires ValidWorld(w) && Fits(css, cur, end, refs)
    decreases Unseen(w, seen), refs, 1
  {
    if refs == [] then
      var all := if cur != end then PushChecked(w, acc, Text(css[cur..end], nextType, last)) else Some(acc);
      if all.None? then None else Some(Substituted(all.value, tainted))
    else
      match Round(w, css, start, end, refs[0], seen, acc, nextType, cur)
      case Stop(result) => result
      case GoOn(after, t) =>
        SubstLoop(w, css, start, end, last, refs[1..], seen, after, refs[0].next, refs[0].end, tainted || t)
  }

  /** What one round of the loop comes to. */
  datatype Outcome = Stop(result: Option<Substituted>) | GoOn(acc: Text, attrTainted: bool)

  ghost function Round(w: World, css: string, start: nat, end: nat, r: Reference, seen: seq<Name>, acc: Text,
                       nextType: TokenType, cur: nat): Outcome
    requires ValidWorld(w) && FallbackFits(css, r) && cur <= r.start <= |css|
    decreases Unseen(w, seen), r, 2
  {
    var before := if r.start != cur then PushChecked(w, acc, Text(css[cur..r.start], nextType, r.prev)) else Some(acc);
    if before.None? then Stop(None)
    else
      var s := SubstReference(w, css, r, seen);
      if s.None? || (r.start == start && r.end == end) then Stop(s)
      else
        var after := PushChecked(w, before.value, s.value.text);
        if after.None? then Stop(None) else GoOn(after.value, s.value.attrTainted)
  }

  ghost function SubstReference(w: World, css: string, r: Reference, seen: seq<Name>): Option<Substituted>
    requires ValidWorld(w) && FallbackFits(css, r)
    decreases Unseen(w, seen), r, 1
  {
    var primary := Primary(w, r, seen);
    if primary.Some? then primary
    else if r.fallback.None? then None
    else
      var f := r.fallback.value;
      SubstChunk(w, css, f.start, r.end - 1, f.first, f.last, f.refs, seen)
  }

  ghost function Primary(w: World, r: Reference, seen: seq<Name>): Option<Substituted>
    requires ValidWorld(w)
    decreases Unseen(w, seen), r, 0
  {
    match r.kind
    case Env => w.env(r.name)
    case Attr => w.attr(r)
    case Var =>
      if r.name !in w.vars then None
      else
        var v := w.vars[r.name];
        if v.value.refs == [] then Some(Substituted(v.value.text, v.attrTainted))
        else if r.name in seen then None
        else
          assert r.name in Unseen(w, seen) && r.name !in Unseen(w, seen + [r.name]);
          var s := SubstChunk(w, v.value.text.css, 0, |v.value.text.css|, v.value.text.first, v.value.text.last,
                              v.value.refs, seen + [r.name]);
          if s.None? then None else Some(Substituted(s.value.text, s.value.attrTainted || v.attrTainted))
  }

  /** The substitution code, with its stack of names being resolved. */
  class Substituter {
    const world: World
    var seen: seq<Name>

    constructor (world: World)
      ensures this.world == world && seen == []
    {
      this.world, seen := world, [];
    }

    method DoSubstituteChunk(css: string, start: nat, end: nat, first: TokenType, last: TokenType, refs: seq<Reference>)
      returns (s: Option<Substituted>)
      requires ValidWorld(world) && Fits(css, start, end, refs)
      modifies this
      ensures seen == old(seen)
      ensures s == SubstChunk(world, css, start, end, first, last, refs, old(seen))
      decreases Unseen(world, seen), refs, 1
    {
      if start == end {
        return Some(Substituted(EMPTY, false));
      }
      if refs == [] {
        return Some(Substituted(Text(css[start..end], first, last), false));
      }
      var substituted := new ValueBuilder();
      var nextType, cur: nat, attrTainted := first, start, false;
      ghost var target := SubstChunk(world, css, start, end, first, last, refs, seen);
      for n := 0 to |refs|
        invariant seen == old(seen) && fresh(substituted)
        invariant Fits(css, cur, end, refs[n..])
        invariant SubstLoop(world, css, start, end, last, refs[n..], seen, substituted.Value(), nextType,
                            cur, attrTainted)
                  == target
      {
        var r := refs[n];
        assert refs[n..][0] == r && refs[n..][1..] == refs[n + 1..];
        var outcome := SubstituteInto(substituted, css, start, end, r, nextType, cur);
        if outcome.Stop? {
          return outcome.result;
        }
        attrTainted := attrTainted || outcome.attrTainted;
        nextType := r.next;
        cur := r.end;
      }
      if cur != end {
        var ok := substituted.Append(world, Text(css[cur..end], nextType, last));
        if !ok {
          return None;
        }
      }
      s := Some(Substituted(Text(substituted.css, substituted.first, substituted.last), attrTainted));
    }

    /** One round: the text before the reference, then what replaces it. */
    method SubstituteInto(substituted: ValueBuilder, css: string, start: nat, end: nat, r: Reference,
                          nextType: TokenType, cur: nat)
      returns (outcome: Outcome)
      requires ValidWorld(world) && FallbackFits(css, r) && cur <= r.start <= |css|
      modifies this, substituted
      ensures seen == old(seen)
      ensures outcome == Round(world, css, start, end, r, old(seen), old(substituted.Value()), nextType, cur)
      ensures outcome.GoOn? ==> substituted.Value() == outcome.acc
      decreases Unseen(world, seen), r, 2
    {
      if r.start != cur {
        var ok := substituted.Append(world, Text(css[cur..r.start], nextType, r.prev));
        if !ok {
          return Stop(None);
        }
      }
      var one := SubstituteOneReference(css, r);
      if one.None? || (r.start == start && r.end == end) {
        return Stop(one);
      }
      var ok := substituted.Append(world, one.value.text);
      if !ok {
        return Stop(None);
      }
      outcome := GoOn(Text(substituted.css, substituted.first, substituted.last), one.value.attrTainted);
    }

    method SubstituteOneReference(css: string, r: Reference) returns (s: Option<Substituted>)
      requires ValidWorld(world) && FallbackFits(css, r)
      modifies this
      ensures seen == old(seen)
      ensures s == SubstReference(world, css, r, old(seen))
      decreases Unseen(world, seen), r, 1
    {
      var primary: Option<Substituted>;
      match r.kind {
        case Env => primary := world.env(r.name);
        case Attr => primary := world.attr(r);
        case Var => primary := SubstituteVariable(r);
      }
      if primary.Some? {
        return primary;
      }
      if r.fallback.None? {
        return None;
      }
      var f := r.fallback.value;
      s := DoSubstituteChunk(css, f.start, r.end - 1, f.first, f.last, f.refs);
    }

    method SubstituteVariable(r: Reference) returns (s: Option<Substituted>)
      requires ValidWorld(world) && r.kind.Var?
      modifies this
      ensures seen == old(seen)
      ensures s == Primary(world, r, old(seen))
      decreases Unseen(world, seen), r, 0
    {
      if r.name !in world.vars {
        return None;
      }
      var v := world.vars[r.name];
      if v.value.refs == [] {
        return Some(Substituted(v.value.text, v.attrTainted));
      }
      if r.name in seen {
        return None;
      }
      assert r.name in Unseen(world, seen) && r.name !in Unseen(world, seen + [r.name]);
      seen := seen + [r.name];
      s := SubstituteInternal(v.value);
      seen := seen[..|seen| - 1];
      if s.Some? {
        s := Some(Substituted(s.value.text, s.value.attrTainted || v.attrTainted));
      }
    }

    method SubstituteInternal(v: VariableValue) returns (s: Option<Substituted>)
      requires ValidWorld(world) && ValueFits(v)
      modifies this
      ensures seen == old(seen)
      ensures s == SubstChunk(world, v.text.css, 0, |v.text.css|, v.text.first, v.text.last, v.refs, old(seen))
      decreases Unseen(world, seen), v.refs, 2
    {
      s := DoSubstituteChunk(v.text.css, 0, |v.text.css|, v.text.first, v.text.last, v.refs);
    }
  }

  // -------------------------------------------------- plain expansion

  /** Without a token in it, a text has no token types either. */
  function Normal(t: Text): Text {
    if t.css == "" then EMPTY else t
  }

  function NormalResult(s: Option<Substituted>): Option<Substituted> {
    if s.None? then None else Some(Substituted(Normal(s.value.text), s.value.attrTainted))
  }

  function Joined(w: World, acc: Text, pieces: seq<Text>): Text
    decreases |pieces|
  {
    if pieces == [] then acc else Joined(w, Push(w, acc, pieces[0]), pieces[1..])
  }

  /** The pieces that have any text. */
  function NonEmpty(pieces: seq<Text>): (ps: seq<Text>)
    ensures |ps| <= |pieces| && forall i | 0 <= i < |ps| :: ps[i].css != "" && ps[i] in pieces
  {
    if pieces == [] then []
    else (if pieces[0].css == "" then [] else [pieces[0]]) + NonEmpty(pieces[1..])
  }

  /** From left to right, with the gaps in between. */
  function Spelled(w: World, ps: seq<Text>): string {
    if ps == [] then ""
    else if |ps| == 1 then ps[0].css
    else ps[0].css + Gap(w, ps[0].last, ps[1].first) + Spelled(w, ps[1..])
  }

  function FirstKind(ps: seq<Text>): TokenType {
    if ps == [] then Nothing
    else if ps[0].first.Kind? then ps[0].first
    else FirstKind(ps[1..])
  }

  function LastKind(ps: seq<Text>): TokenType {
    if ps == [] then Nothing else ps[|ps| - 1].last
  }

  /** `t` is what the pieces say, read from left to right. */
  predicate Spells(w: World, pieces: seq<Text>, t: Text) {
    var ps := NonEmpty(pieces);
    t == Text(Spelled(w, ps), FirstKind(ps), LastKind(ps))
  }

  /** Joining onto `acc` adds the rest of the spelling. */
  lemma {:induction false} JoinedSpellsRest(w: World, acc: Text, pieces: seq<Text>)
    requires acc.css != ""
    ensures var t, ps := Joined(w, acc, pieces), NonEmpty(pieces);
            && t.css == Spelled(w, [acc] + ps)
            && t.first == FirstKind([acc] + ps)
            && t.last == LastKind([acc] + ps)
    decreases |pieces|
  {
    var ps := NonEmpty(pieces);
    if pieces == [] {
      assert [acc] + ps == [acc];
    } else if pieces[0].css == "" {
      EmptyAddsNothing(pieces);
      JoinedSpellsRest(w, acc, pieces[1..]);
    } else {
      var p, rest := pieces[0], NonEmpty(pieces[1..]);
      var pushed := Push(w, acc, p);
      JoinedSpellsRest(w, pushed, pieces[1..]);
      SpelledInTwo(w, acc, p, pushed, rest);
    }
  }

  lemma EmptyAddsNothing(pieces: seq<Text>)
    requires pieces != [] && pieces[0].css == ""
    ensures NonEmpty(pieces) == NonEmpty(pieces[1..])
  {
  }

  lemma SpelledInTwo(w: World, acc: Text, p: Text, pushed: Text, rest: seq<Text>)
    requires p.css != "" && pushed == Push(w, acc, p)
    ensures Spelled(w, [pushed] + rest) == Spelled(w, [acc] + ([p] + rest))
    ensures FirstKind([pushed] + rest) == FirstKind([acc] + ([p] + rest))
    ensures LastKind([pushed] + rest) == LastKind([acc] + ([p] + rest))
  {
    var all := [acc] + ([p] + rest);
    assert all[1..] == [p] + rest && ([p] + rest)[1..] == rest && ([pushed] + rest)[1..] == rest;
    if rest != [] {
      assert Spelled(w, [p] + rest) == p.css + Gap(w, p.last, rest[0].first) + Spelled(w, rest);
    }
  }

  /** What is joined from nothing is the spelling of the pieces. */
  lemma {:induction false} JoinedSpells(w: World, pieces: seq<Text>)
    requires forall t: TokenType :: !w.separates(Nothing, t)
    ensures Spells(w, pieces, Joined(w, EMPTY, pieces))
    decreases |pieces|
  {
    if pieces != [] {
      if pieces[0].css == "" {
        EmptyAddsNothing(pieces);
        JoinedSpells(w, pieces[1..]);
      } else {
        var first := pieces[0];
        var pushed := Push(w, EMPTY, first);
        assert pushed == first;
        JoinedSpellsRest(w, pushed, pieces[1..]);
      }
    }
  }

  /** A value, if there is one, and the longest text met on the way. */
  datatype Expansion = Expansion(value: Option<Substituted>, peak: nat)

  datatype Parts = Parts(pieces: Option<seq<Text>>, attrTainted: bool, peak: nat)

  function Max(a: nat, b: nat): nat {
    if a <= b then b else a
  }

  /** Expansion in which a name on the current path is invalid: expand every reference,
      join the pieces.  It keeps no stack and knows no limit. */
  ghost function PathChunk(w: World, css: string, start: nat, end: nat, first: TokenType,
                           last: TokenType, refs: seq<Reference>, path: set<Name>): Expansion
    requires ValidWorld(w) && Fits(css, start, end, refs)
    decreases w.vars.Keys - path, refs, 2
  {
    var parts := PathParts(w, css, start, end, first, last, refs, path);
    if parts.pieces.None? then Expansion(None, parts.peak)
    else
      var t := Joined(w, EMPTY, parts.pieces.value);
      Expansion(Some(Substituted(t, parts.attrTainted)), Max(|t.css|, parts.peak))
  }

  ghost function PathParts(w: World, css: string, cur: nat, end: nat, nextType: TokenType,
                           last: TokenType, refs: seq<Reference>, path: set<Name>): Parts
    requires ValidWorld(w) && Fits(css, cur, end, refs)
    decreases w.vars.Keys - path, refs, 1
  {
    if refs == [] then Parts(Some(TextBetween(css, cur, end, nextType, last)), false, 0)
    else
      var r := refs[0];
      var e := PathReference(w, css, r, path);
      var rest := PathParts(w, css, r.end, end, r.next, last, refs[1..], path);
      Parts(if e.value.None? || rest.pieces.None? then None
            else Some(TextBetween(css, cur, r.start, nextType, r.prev) + [e.value.value.text] + rest.pieces.value),
            (e.value.Some? && e.value.value.attrTainted) || rest.attrTainted,
            Max(e.peak, rest.peak))
  }

  /** A reference that has no value of its own takes the value of its fallback. */
  ghost function PathReference(w: World, css: string, r: Reference, path: set<Name>): Expansion
    requires ValidWorld(w) && FallbackFits(css, r)
    decreases w.vars.Keys - path, r, 1
  {
    var primary := PathPrimary(w, r, path);
    if primary.value.Some? || r.fallback.None? then primary
    else
      var f := r.fallback.value;
      var e := PathChunk(w, css, f.start, r.end - 1, f.first, f.last, f.refs, path);
      Expansion(e.value, Max(primary.peak, e.peak))
  }

  ghost function PathPrimary(w: World, r: Reference, path: set<Name>): Expansion
    requires ValidWorld(w)
    decreases w.vars.Keys - path, r, 0
  {
    match r.kind
    case Env => Expansion(NormalResult(w.env(r.name)), 0)
    case Attr => Expansion(NormalResult(w.attr(r)), 0)
    case Var =>
      if r.name !in w.vars then Expansion(None, 0)
      else
        var v := w.vars[r.name];
        if v.value.refs == [] then Expansion(Some(Substituted(Normal(v.value.text), v.attrTainted)), 0)
        else if r.name in path then Expansion(None, 0)
        else
          assert r.name in w.vars.Keys - path && r.name !in w.vars.Keys - (path + {r.name});
          var e := PathChunk(w, v.value.text.css, 0, |v.value.text.css|, v.value.text.first, v.value.text.last,
                             v.value.refs, path + {r.name});
          Expansion(if e.value.None? then None
                    else Some(Substituted(e.value.value.text, e.value.value.attrTainted || v.attrTainted)), e.peak)
  }

  function TextBetween(css: string, start: nat, end: nat, first: TokenType, last: TokenType): seq<Text>
    requires start <= end <= |css|
  {
    if start == end then [] else [Text(css[start..end], first, last)]
  }

  /** Expansion spells its pieces, at every level. */
  lemma ChunkSpells(w: World, css: string, start: nat, end: nat, first: TokenType, last: TokenType,
                    refs: seq<Reference>, path: set<Name>)
    requires ValidWorld(w) && Fits(css, start, end, refs)
    ensures var e := PathChunk(w, css, start, end, first, last, refs, path);
            var parts := PathParts(w, css, start, end, first, last, refs, path);
            && (e.value.Some? <==> parts.pieces.Some?)
            && (e.value.Some? ==> Spells(w, parts.pieces.value, e.value.value.text))
  {
    var parts := PathParts(w, css, start, end, first, last, refs, path);
    if parts.pieces.Some? {
      JoinedSpells(w, parts.pieces.value);
    }
  }

  /** A reference without a value of its own says what its fallback says; one whose variable
      does not exist, or comes up on its own path, has none. */
  lemma FallbackReplaces(w: World, css: string, r: Reference, path: set<Name>)
    requires ValidWorld(w) && FallbackFits(css, r)
    requires r.kind.Var? && (r.name !in w.vars || (w.vars[r.name].value.refs != [] && r.name in path))
    ensures r.fallback.None? ==> PathReference(w, css, r, path).value.None?
    ensures r.fallback.Some? && r.fallback.value.refs == [] ==>
              var f := r.fallback.value;
              var e := PathReference(w, css, r, path);
              && e.value.Some? && !e.value.value.attrTainted
              && f.start <= r.end - 1 <= |css| && e.value.value.text.css == css[f.start..r.end - 1]
  {
    if r.fallback.Some? && r.fallback.value.refs == [] {
      var f := r.fallback.value;
      ChunkSpells(w, css, f.start, r.end - 1, f.first, f.last, f.refs, path);
    }
  }

  // ------------------------------------------------------------- attr taint

  /** Whether any variable in scope, or answer of `env()` or `attr()`, is tainted. */
  ghost predicate NothingTainted(w: World) {
    && (forall n | n in w.vars :: !w.vars[n].attrTainted)
    && (forall n :: w.env(n).Some? ==> !w.env(n).value.attrTainted)
    && forall r :: w.attr(r).Some? ==> !w.attr(r).value.attrTainted
  }

  /** Taint does not come from nowhere. */
  lemma {:induction false} TaintHasSource(w: World, css: string, cur: nat, end: nat, nextType: TokenType,
                                          last: TokenType, refs: seq<Reference>, path: set<Name>)
    requires ValidWorld(w) && Fits(css, cur, end, refs) && NothingTainted(w)
    ensures !PathParts(w, css, cur, end, nextType, last, refs, path).attrTainted
    decreases w.vars.Keys - path, refs, 1
  {
    if refs != [] {
      ReferenceTaintHasSource(w, css, refs[0], path);
      TaintHasSource(w, css, refs[0].end, end, refs[0].next, last, refs[1..], path);
    }
  }

  lemma {:induction false} ReferenceTaintHasSource(w: World, css: string, r: Reference, path: set<Name>)
    requires ValidWorld(w) && FallbackFits(css, r) && NothingTainted(w)
    ensures var e := PathReference(w, css, r, path); e.value.Some? ==> !e.value.value.attrTainted
    decreases w.vars.Keys - path, r, 1
  {
    PrimaryTaintHasSource(w, r, path);
    if PathPrimary(w, r, path).value.None? && r.fallback.Some? {
      var f := r.fallback.value;
      TaintHasSource(w, css, f.start, r.end - 1, f.first, f.last, f.refs, path);
    }
  }

  lemma {:induction false} PrimaryTaintHasSource(w: World, r: Reference, path: set<Name>)
    requires ValidWorld(w) && NothingTainted(w)
    ensures var e := PathPrimary(w, r, path); e.value.Some? ==> !e.value.value.attrTainted
    decreases w.vars.Keys - path, r, 0
  {
    if r.kind.Var? && r.name in w.vars && w.vars[r.name].value.refs != [] && r.name !in path {
      var v := w.vars[r.name].value;
      assert r.name in w.vars.Keys - path && r.name !in w.vars.Keys - (path + {r.name});
      TaintHasSource(w, v.text.css, 0, |v.text.css|, v.text.first, v.text.last, v.refs, path + {r.name});
    }
  }

  /** The value of a variable is tainted if the variable is, or anything it refers to. */
  lemma VariableTaint(w: World, r: Reference, path: set<Name>)
    requires ValidWorld(w) && r.kind.Var? && r.name in w.vars && PathPrimary(w, r, path).value.Some?
    ensures w.vars[r.name].attrTainted ==> PathPrimary(w, r, path).value.value.attrTainted
    ensures var v := w.vars[r.name].value;
            v.refs != [] && PathParts(w, v.text.css, 0, |v.text.css|, v.text.first, v.text.last, v.refs,
                                      path + {r.name}).attrTainted
            ==> PathPrimary(w, r, path).value.value.attrTainted
  {
  }

  /** One tainted reference taints the whole, and so through any number of them. */
  lemma {:induction false} TaintSpreads(w: World, css: string, cur: nat, end: nat, nextType: TokenType,
                                        last: TokenType, refs: seq<Reference>, path: set<Name>, i: nat)
    requires ValidWorld(w) && Fits(css, cur, end, refs) && i < |refs| && FallbackFits(css, refs[i])
    requires var e := PathReference(w, css, refs[i], path); e.value.Some? && e.value.value.attrTainted
    ensures PathParts(w, css, cur, end, nextType, last, refs, path).attrTainted
    decreases |refs|
  {
    if i > 0 {
      TaintSpreads(w, css, refs[0].end, end, refs[0].next, last, refs[1..], path, i - 1);
    }
  }

  // ---------------------------------------- the stack is the path

  lemma PushNormal(w: World, t: Text, p: Text)
    ensures Push(w, t, Normal(p)) == Push(w, t, p)
    ensures |Push(w, t, p).css| >= |t.css| + |p.css|
    ensures (t == Normal(t)) ==> Push(w, t, p) == Normal(Push(w, t, p))
    ensures (forall x :: !w.separates(Nothing, x)) ==> Push(w, EMPTY, p) == Normal(p)
  {
  }

  lemma {:induction false} JoinedGrows(w: World, acc: Text, pieces: seq<Text>)
    ensures |acc.css| <= |Joined(w, acc, pieces).css|
    ensures pieces != [] ==> |acc.css| + |pieces[0].css| <= |Joined(w, acc, pieces).css|
    ensures acc == Normal(acc) ==> Joined(w, acc, pieces) == Normal(Joined(w, acc, pieces))
    decreases |pieces|
  {
    if pieces != [] {
      PushNormal(w, acc, pieces[0]);
      JoinedGrows(w, Push(w, acc, pieces[0]), pieces[1..]);
    }
  }

  ghost predicate OnPath(seen: seq<Name>, path: set<Name>) {
    forall n :: n in seen <==> n in path
  }

  /** On every map, and while no text grows beyond the limit, the stack acts as the set of
      the names on it, and the loop joins the pieces. */
  lemma {:induction false} GuardedIsPathwise(w: World, css: string, start: nat, end: nat,
                                          first: TokenType, last: TokenType, refs: seq<Reference>, path: set<Name>,
                                          seen: seq<Name>)
    requires ValidWorld(w) && Fits(css, start, end, refs)
    requires OnPath(seen, path)
    requires PathChunk(w, css, start, end, first, last, refs, path).peak <= MAX_VALUE_LENGTH
    ensures NormalResult(SubstChunk(w, css, start, end, first, last, refs, seen))
            == PathChunk(w, css, start, end, first, last, refs, path).value
    decreases w.vars.Keys - path, refs, 3
  {
    var parts := PathParts(w, css, start, end, first, last, refs, path);
    if start == end {
      NoRoomForReferences(css, start, end, refs);
    } else if refs == [] {
      PushNormal(w, EMPTY, Text(css[start..end], first, last));
      assert Joined(w, EMPTY, parts.pieces.value) == Push(w, EMPTY, Text(css[start..end], first, last));
    } else {
      LoopIsPathwise(w, css, start, end, last, refs, path, seen, EMPTY, first, start, false);
    }
  }

  lemma NoRoomForReferences(css: string, start: nat, end: nat, refs: seq<Reference>)
    requires Fits(css, start, end, refs) && start == end
    ensures refs == []
  {
  }

  /** A reference over the whole stretch is the only one. */
  lemma WholeIsAlone(css: string, start: nat, end: nat, refs: seq<Reference>)
    requires refs != [] && Fits(css, refs[0].end, end, refs[1..]) && refs[0].end == end
    ensures refs[1..] == []
  {
  }

  lemma {:induction false} LoopIsPathwise(w: World, css: string, start: nat, end: nat, last: TokenType,
                                       refs: seq<Reference>, path: set<Name>, seen: seq<Name>, acc: Text,
                                       nextType: TokenType, cur: nat, tainted: bool)
    requires ValidWorld(w) && Fits(css, cur, end, refs)
    requires OnPath(seen, path) && acc == Normal(acc)
    requires start <= cur && (start == cur ==> acc == EMPTY && !tainted)
    requires var parts := PathParts(w, css, cur, end, nextType, last, refs, path);
             && parts.peak <= MAX_VALUE_LENGTH
             && (parts.pieces.Some? ==> |Joined(w, acc, parts.pieces.value).css| <= MAX_VALUE_LENGTH)
    ensures var parts := PathParts(w, css, cur, end, nextType, last, refs, path);
            NormalResult(SubstLoop(w, css, start, end, last, refs, seen, acc, nextType, cur, tainted))
            == if parts.pieces.None? then None
               else Some(Substituted(Joined(w, acc, parts.pieces.value), tainted || parts.attrTainted))
    decreases w.vars.Keys - path, refs, 2
  {
    var parts := PathParts(w, css, cur, end, nextType, last, refs, path);
    if refs == [] {
      JoinedGrows(w, acc, parts.pieces.value);
    } else {
      var r := refs[0];
      ReferenceIsPathwise(w, css, r, path, seen);
      var e := PathReference(w, css, r, path);
      if e.value.Some? {
        if r.start == start && r.end == end {
          WholeIsAlone(css, start, end, refs);
          WholeJoined(w, css, end, r.next, last, e.value.value.text);
        } else {
          StepIsPathwise(w, css, start, end, last, refs, path, seen, acc, nextType, cur, tainted);
        }
      }
    }
  }

  /** One reference that is not the whole stretch, and the rest of the loop. */
  lemma {:induction false} StepIsPathwise(w: World, css: string, start: nat, end: nat, last: TokenType,
                                       refs: seq<Reference>, path: set<Name>, seen: seq<Name>, acc: Text,
                                       nextType: TokenType, cur: nat, tainted: bool)
    requires ValidWorld(w) && Fits(css, cur, end, refs) && refs != []
    requires OnPath(seen, path) && acc == Normal(acc) && start <= cur
    requires !(refs[0].start == start && refs[0].end == end)
    requires var parts := PathParts(w, css, cur, end, nextType, last, refs, path);
             && parts.peak <= MAX_VALUE_LENGTH
             && (parts.pieces.Some? ==> |Joined(w, acc, parts.pieces.value).css| <= MAX_VALUE_LENGTH)
    requires var e := PathReference(w, css, refs[0], path);
             e.value.Some? && NormalResult(SubstReference(w, css, refs[0], seen)) == e.value
    ensures var parts := PathParts(w, css, cur, end, nextType, last, refs, path);
            NormalResult(SubstLoop(w, css, start, end, last, refs, seen, acc, nextType, cur, tainted))
            == if parts.pieces.None? then None
               else Some(Substituted(Joined(w, acc, parts.pieces.value), tainted || parts.attrTainted))
    decreases w.vars.Keys - path, refs, 1
  {
    var r := refs[0];
    var x := PathReference(w, css, r, path).value.value;
    var s := SubstReference(w, css, r, seen).value;
    var lead := TextBetween(css, cur, r.start, nextType, r.prev);
    var before := if lead == [] then acc else Push(w, acc, lead[0]);
    var after := Push(w, before, x.text);
    var rest := PathParts(w, css, r.end, end, r.next, last, refs[1..], path);
    PushNormal(w, before, s.text);
    LoopStep(w, css, start, end, last, refs, seen, acc, nextType, cur, tainted, s, before);
    StepIsNormal(w, acc, lead, x.text);
    if rest.pieces.Some? {
      StepFits(w, acc, lead, x.text, rest.pieces.value);
    }
    LoopIsPathwise(w, css, start, end, last, refs[1..], path, seen, after, r.next, r.end, tainted || x.attrTainted);
  }

  /** One reference that is not the whole stretch: the loop goes on, or a text gets too
      long. */
  lemma LoopStep(w: World, css: string, start: nat, end: nat, last: TokenType, refs: seq<Reference>, seen: seq<Name>,
                 acc: Text, nextType: TokenType, cur: nat, tainted: bool, s: Substituted, before: Text)
    requires ValidWorld(w) && Fits(css, cur, end, refs) && refs != []
    requires SubstReference(w, css, refs[0], seen) == Some(s)
    requires !(refs[0].start == start && refs[0].end == end)
    requires var lead := TextBetween(css, cur, refs[0].start, nextType, refs[0].prev);
             before == if lead == [] then acc else Push(w, acc, lead[0])
    ensures var lead := TextBetween(css, cur, refs[0].start, nextType, refs[0].prev);
            var result := SubstLoop(w, css, start, end, last, refs, seen, acc, nextType, cur, tainted);
            if (lead != [] ==> PushChecked(w, acc, lead[0]).Some?) && PushChecked(w, before, s.text).Some? then
              result == SubstLoop(w, css, start, end, last, refs[1..], seen, Push(w, before, s.text), refs[0].next,
                                  refs[0].end, tainted || s.attrTainted)
            else result.None?
  {
  }

  lemma WholeJoined(w: World, css: string, end: nat, next: TokenType, last: TokenType, x: Text)
    requires ValidWorld(w) && x == Normal(x) && end <= |css|
    ensures Joined(w, EMPTY, [x] + TextBetween(css, end, end, next, last)) == x
  {
    PushNormal(w, EMPTY, x);
    assert [] + [x] + [] == [x] + TextBetween(css, end, end, next, last);
  }

  /** What fits when everything is joined fits on the way there. */
  lemma StepFits(w: World, acc: Text, lead: seq<Text>, x: Text, rest: seq<Text>)
    requires |lead| <= 1 && |Joined(w, acc, lead + [x] + rest).css| <= MAX_VALUE_LENGTH
    ensures lead != [] ==> PushChecked(w, acc, lead[0]).Some?
    ensures var before := if lead == [] then acc else Push(w, acc, lead[0]);
            && PushChecked(w, before, x).Some?
            && Joined(w, acc, lead + [x] + rest) == Joined(w, Push(w, before, x), rest)
  {
    var before := if lead == [] then acc else Push(w, acc, lead[0]);
    JoinedGrows(w, Push(w, before, x), rest);
    PushNormal(w, before, x);
    if lead != [] {
      PushNormal(w, acc, lead[0]);
    }
  }

  lemma StepIsNormal(w: World, acc: Text, lead: seq<Text>, x: Text)
    requires acc == Normal(acc) && |lead| <= 1
    ensures var before := if lead == [] then acc else Push(w, acc, lead[0]);
            Push(w, before, x) == Normal(Push(w, before, x))
  {
    if lead != [] {
      PushNormal(w, acc, lead[0]);
    }
    PushNormal(w, if lead == [] then acc else Push(w, acc, lead[0]), x);
  }

  lemma {:induction false} ReferenceIsPathwise(w: World, css: string, r: Reference, path: set<Name>,
                                            seen: seq<Name>)
    requires ValidWorld(w) && FallbackFits(css, r)
    requires OnPath(seen, path)
    requires PathReference(w, css, r, path).peak <= MAX_VALUE_LENGTH
    ensures NormalResult(SubstReference(w, css, r, seen)) == PathReference(w, css, r, path).value
    decreases w.vars.Keys - path, r, 2
  {
    PrimaryIsPathwise(w, r, path, seen);
    if PathPrimary(w, r, path).value.None? && r.fallback.Some? {
      var f := r.fallback.value;
      GuardedIsPathwise(w, css, f.start, r.end - 1, f.first, f.last, f.refs, path, seen);
    }
  }

  lemma {:induction false} PrimaryIsPathwise(w: World, r: Reference, path: set<Name>, seen: seq<Name>)
    requires ValidWorld(w) && OnPath(seen, path)
    requires PathPrimary(w, r, path).peak <= MAX_VALUE_LENGTH
    ensures NormalResult(Primary(w, r, seen)) == PathPrimary(w, r, path).value
    decreases w.vars.Keys - path, r, 1
  {
    if r.kind.Var? && r.name in w.vars && w.vars[r.name].value.refs != [] && r.name !in path {
      var v := w.vars[r.name].value;
      assert r.name in w.vars.Keys - path && r.name !in w.vars.Keys - (path + {r.name});
      assert OnPath(seen + [r.name], path + {r.name});
      GuardedIsPathwise(w, v.text.css, 0, |v.text.css|, v.text.first, v.text.last, v.refs, path + {r.name},
                     seen + [r.name]);
    }
  }

  // ------------------------------------- without cycles the path is no matter

  /** The references of `refs`, and of their fallbacks, lead to variables below `bound`. */
  ghost predicate Below(w: World, rank: Name -> nat, refs: seq<Reference>, bound: nat)
    decreases refs
  {
    forall i | 0 <= i < |refs| :: BelowReference(w, rank, refs[i], bound)
  }

  ghost predicate BelowReference(w: World, rank: Name -> nat, r: Reference, bound: nat)
    decreases r
  {
    && (r.kind.Var? && r.name in w.vars && w.vars[r.name].value.refs != [] ==> rank(r.name) < bound)
    && (r.fallback.Some? ==> Below(w, rank, r.fallback.value.refs, bound))
  }

  /** No variable refers to itself, however indirectly: ranks go down along references. */
  ghost predicate Acyclic(w: World, rank: Name -> nat) {
    forall n | n in w.vars :: Below(w, rank, w.vars[n].value.refs, rank(n))
  }

  /** Expansion by the book: expand every reference, join the pieces.  It keeps no stack
      and knows no limit. */
  ghost function PlainChunk(w: World, rank: Name -> nat, css: string, start: nat, end: nat, first: TokenType,
                            last: TokenType, refs: seq<Reference>, bound: nat): Expansion
    requires ValidWorld(w) && Acyclic(w, rank) && Fits(css, start, end, refs) && Below(w, rank, refs, bound)
    decreases bound, refs, 2
  {
    var parts := PlainParts(w, rank, css, start, end, first, last, refs, bound);
    if parts.pieces.None? then Expansion(None, parts.peak)
    else
      var t := Joined(w, EMPTY, parts.pieces.value);
      Expansion(Some(Substituted(t, parts.attrTainted)), Max(|t.css|, parts.peak))
  }

  ghost function PlainParts(w: World, rank: Name -> nat, css: string, cur: nat, end: nat, nextType: TokenType,
                            last: TokenType, refs: seq<Reference>, bound: nat): Parts
    requires ValidWorld(w) && Acyclic(w, rank) && Fits(css, cur, end, refs) && Below(w, rank, refs, bound)
    decreases bound, refs, 1
  {
    if refs == [] then Parts(Some(TextBetween(css, cur, end, nextType, last)), false, 0)
    else
      var r := refs[0];
      var e := PlainReference(w, rank, css, r, bound);
      var rest := PlainParts(w, rank, css, r.end, end, r.next, last, refs[1..], bound);
      Parts(if e.value.None? || rest.pieces.None? then None
            else Some(TextBetween(css, cur, r.start, nextType, r.prev) + [e.value.value.text] + rest.pieces.value),
            (e.value.Some? && e.value.value.attrTainted) || rest.attrTainted,
            Max(e.peak, rest.peak))
  }

  /** A reference that has no value of its own takes the value of its fallback. */
  ghost function PlainReference(w: World, rank: Name -> nat, css: string, r: Reference, bound: nat): Expansion
    requires ValidWorld(w) && Acyclic(w, rank) && FallbackFits(css, r) && BelowReference(w, rank, r, bound)
    decreases bound, r, 1
  {
    var primary := PlainPrimary(w, rank, r, bound);
    if primary.value.Some? || r.fallback.None? then primary
    else
      var f := r.fallback.value;
      var e := PlainChunk(w, rank, css, f.start, r.end - 1, f.first, f.last, f.refs, bound);
      Expansion(e.value, Max(primary.peak, e.peak))
  }

  ghost function PlainPrimary(w: World, rank: Name -> nat, r: Reference, bound: nat): Expansion
    requires ValidWorld(w) && Acyclic(w, rank) && BelowReference(w, rank, r, bound)
    decreases bound, r, 0
  {
    match r.kind
    case Env => Expansion(NormalResult(w.env(r.name)), 0)
    case Attr => Expansion(NormalResult(w.attr(r)), 0)
    case Var =>
      if r.name !in w.vars then Expansion(None, 0)
      else
        var v := w.vars[r.name];
        if v.value.refs == [] then Expansion(Some(Substituted(Normal(v.value.text), v.attrTainted)), 0)
        else
          var e := PlainChunk(w, rank, v.value.text.css, 0, |v.value.text.css|, v.value.text.first, v.value.text.last,
                              v.value.refs, rank(r.name));
          Expansion(if e.value.None? then None
                    else Some(Substituted(e.value.value.text, e.value.value.attrTainted || v.attrTainted)), e.peak)
  }

  ghost predicate PathAbove(rank: Name -> nat, path: set<Name>, bound: nat) {
    forall n | n in path :: rank(n) >= bound
  }

  /** On an acyclic map no name ever comes up on its own path: expansion is plain. */
  lemma {:induction false} PathIsPlain(w: World, rank: Name -> nat, css: string, start: nat, end: nat,
                                       first: TokenType, last: TokenType, refs: seq<Reference>, bound: nat,
                                       path: set<Name>)
    requires ValidWorld(w) && Acyclic(w, rank) && Fits(css, start, end, refs) && Below(w, rank, refs, bound)
    requires PathAbove(rank, path, bound)
    ensures PathChunk(w, css, start, end, first, last, refs, path)
            == PlainChunk(w, rank, css, start, end, first, last, refs, bound)
    decreases bound, refs, 2
  {
    PathPartsArePlain(w, rank, css, start, end, first, last, refs, bound, path);
  }

  lemma {:induction false} PathPartsArePlain(w: World, rank: Name -> nat, css: string, cur: nat, end: nat,
                                             nextType: TokenType, last: TokenType, refs: seq<Reference>, bound: nat,
                                             path: set<Name>)
    requires ValidWorld(w) && Acyclic(w, rank) && Fits(css, cur, end, refs) && Below(w, rank, refs, bound)
    requires PathAbove(rank, path, bound)
    ensures PathParts(w, css, cur, end, nextType, last, refs, path)
            == PlainParts(w, rank, css, cur, end, nextType, last, refs, bound)
    decreases bound, refs, 1
  {
    if refs != [] {
      PathReferenceIsPlain(w, rank, css, refs[0], bound, path);
      PathPartsArePlain(w, rank, css, refs[0].end, end, refs[0].next, last, refs[1..], bound, path);
    }
  }

  lemma {:induction false} PathReferenceIsPlain(w: World, rank: Name -> nat, css: string, r: Reference, bound: nat,
                                                path: set<Name>)
    requires ValidWorld(w) && Acyclic(w, rank) && FallbackFits(css, r) && BelowReference(w, rank, r, bound)
    requires PathAbove(rank, path, bound)
    ensures PathReference(w, css, r, path) == PlainReference(w, rank, css, r, bound)
    decreases bound, r, 1
  {
    PathPrimaryIsPlain(w, rank, r, bound, path);
    if PlainPrimary(w, rank, r, bound).value.None? && r.fallback.Some? {
      var f := r.fallback.value;
      PathIsPlain(w, rank, css, f.start, r.end - 1, f.first, f.last, f.refs, bound, path);
    }
  }

  lemma {:induction false} PathPrimaryIsPlain(w: World, rank: Name -> nat, r: Reference, bound: nat, path: set<Name>)
    requires ValidWorld(w) && Acyclic(w, rank) && BelowReference(w, rank, r, bound) && PathAbove(rank, path, bound)
    ensures PathPrimary(w, r, path) == PlainPrimary(w, rank, r, bound)
    decreases bound, r, 0
  {
    if r.kind.Var? && r.name in w.vars && w.vars[r.name].value.refs != [] {
      var v := w.vars[r.name].value;
      PathIsPlain(w, rank, v.text.css, 0, |v.text.css|, v.text.first, v.text.last, v.refs, rank(r.name),
                  path + {r.name});
    }
  }

  /** On an acyclic map, and while no text grows beyond the limit, the guarded
      substitution is plain expansion. */
  lemma GuardedIsPlain(w: World, rank: Name -> nat, css: string, start: nat, end: nat, first: TokenType,
                       last: TokenType, refs: seq<Reference>, bound: nat, seen: seq<Name>)
    requires ValidWorld(w) && Acyclic(w, rank) && Fits(css, start, end, refs) && Below(w, rank, refs, bound)
    requires forall i | 0 <= i < |seen| :: rank(seen[i]) >= bound
    requires PlainChunk(w, rank, css, start, end, first, last, refs, bound).peak <= MAX_VALUE_LENGTH
    ensures NormalResult(SubstChunk(w, css, start, end, first, last, refs, seen))
            == PlainChunk(w, rank, css, start, end, first, last, refs, bound).value
  {
    var path := set n | n in seen;
    PathIsPlain(w, rank, css, start, end, first, last, refs, bound, path);
    GuardedIsPathwise(w, css, start, end, first, last, refs, path, seen);
  }

  /** The result spells the pieces, and there is one if every piece has a value. */
  ghost predicate SpellsParts(w: World, parts: Parts, s: Option<Substituted>) {
    && (s.Some? <==> parts.pieces.Some?)
    && (s.Some? ==>
          Spells(w, parts.pieces.value, Normal(s.value.text)) && s.value.attrTainted == parts.attrTainted)
  }

  /** The entry point.  On every map, cyclic or not, it is expansion in which the names on
      the current path are invalid; on an acyclic one (witnessed by `rank`) that is plain
      expansion.  Either holds unless a text grows too long. */
  method Substitute(world: World, v: VariableValue, ghost rank: Name -> nat, ghost bound: nat)
    returns (s: Option<Substituted>)
    requires ValidWorld(world) && ValueFits(v)
    ensures s == SubstChunk(world, v.text.css, 0, |v.text.css|, v.text.first, v.text.last, v.refs, [])
    ensures var pathwise := PathChunk(world, v.text.css, 0, |v.text.css|, v.text.first, v.text.last, v.refs, {});
            pathwise.peak <= MAX_VALUE_LENGTH ==> NormalResult(s) == pathwise.value
    ensures var t := v.text;
            var pathwise := PathChunk(world, t.css, 0, |t.css|, t.first, t.last, v.refs, {});
            var parts := PathParts(world, t.css, 0, |t.css|, t.first, t.last, v.refs, {});
            pathwise.peak <= MAX_VALUE_LENGTH ==> SpellsParts(world, parts, s)
    ensures Acyclic(world, rank) && Below(world, rank, v.refs, bound) ==>
              var plain := PlainChunk(world, rank, v.text.css, 0, |v.text.css|, v.text.first, v.text.last,
                                      v.refs, bound);
              plain.peak <= MAX_VALUE_LENGTH ==> NormalResult(s) == plain.value
    ensures Acyclic(world, rank) && Below(world, rank, v.refs, bound) ==>
              var t := v.text;
              var plain := PlainChunk(world, rank, t.css, 0, |t.css|, t.first, t.last, v.refs, bound);
              var parts := PlainParts(world, rank, t.css, 0, |t.css|, t.first, t.last, v.refs, bound);
              plain.peak <= MAX_VALUE_LENGTH ==> SpellsParts(world, parts, s)
  {
    var substituter := new Substituter(world);
    s := substituter.SubstituteInternal(v);
    var t := v.text;
    if PathChunk(world, t.css, 0, |t.css|, t.first, t.last, v.refs, {}).peak <= MAX_VALUE_LENGTH {
      GuardedIsPathwise(world, t.css, 0, |t.css|, t.first, t.last, v.refs, {}, []);
      ChunkSpells(world, t.css, 0, |t.css|, t.first, t.last, v.refs, {});
    }
    if Acyclic(world, rank) && Below(world, rank, v.refs, bound) {
      if PlainChunk(world, rank, t.css, 0, |t.css|, t.first, t.last, v.refs, bound).peak <= MAX_VALUE_LENGTH {
        GuardedIsPlain(world, rank, t.css, 0, |t.css|, t.first, t.last, v.refs, bound, []);
        PathIsPlain(world, rank, t.css, 0, |t.css|, t.first, t.last, v.refs, bound, {});
        PathPartsArePlain(world, rank, t.css, 0, |t.css|, t.first, t.last, v.refs, bound, {});
        ChunkSpells(world, t.css, 0, |t.css|, t.first, t.last, v.refs, {});
      }
    }
  }

  // --------------------------------------------------------------- cycles

  /** Every variable of `knot` needs, without a fallback, another one of `knot`. */
  ghost predicate IsKnot(w: World, knot: set<Name>) {
    forall n {:trigger IsKnotted(w, n, knot)} | n in knot :: IsKnotted(w, n, knot)
  }

  ghost predicate IsKnotted(w: World, n: Name, knot: set<Name>) {
    && n in w.vars
    && exists i :: 0 <= i < |w.vars[n].value.refs| && NeedsKnot(w.vars[n].value.refs[i], knot)
  }

  predicate NeedsKnot(r: Reference, knot: set<Name>) {
    r.kind.Var? && r.name in knot && r.fallback.None?
  }

  /** One invalid reference makes the whole stretch invalid. */
  lemma {:induction false} InvalidSpreads(w: World, css: string, start: nat, end: nat, last: TokenType,
                                          refs: seq<Reference>,
                                          seen: seq<Name>, acc: Text, nextType: TokenType, cur: nat, tainted: bool,
                                          i: nat)
    requires ValidWorld(w) && Fits(css, cur, end, refs) && i < |refs| && start <= cur
    requires FallbackFits(css, refs[i]) && SubstReference(w, css, refs[i], seen).None?
    ensures SubstLoop(w, css, start, end, last, refs, seen, acc, nextType, cur, tainted).None?
    decreases |refs|
  {
    if i > 0 {
      if refs[0].end == end {
        WholeIsAlone(css, start, end, refs);
      }
      var round := Round(w, css, start, end, refs[0], seen, acc, nextType, cur);
      if round.GoOn? {
        InvalidSpreads(w, css, start, end, last, refs[1..], seen, round.acc, refs[0].next, refs[0].end,
                       tainted || round.attrTainted, i - 1);
      }
    }
  }

  lemma {:induction false} FitsAt(css: string, start: nat, end: nat, refs: seq<Reference>, i: nat)
    requires Fits(css, start, end, refs) && i < |refs|
    ensures FallbackFits(css, refs[i]) && start < end
    decreases |refs|
  {
    if i > 0 {
      FitsAt(css, refs[0].end, end, refs[1..], i - 1);
    }
  }

  /** Variables in a cycle without fallbacks are invalid, wherever resolving them starts. */
  lemma {:induction false} CyclesAreInvalid(w: World, knot: set<Name>, r: Reference, seen: seq<Name>)
    requires ValidWorld(w) && IsKnot(w, knot) && r.kind.Var? && r.name in knot
    ensures Primary(w, r, seen).None?
    decreases Unseen(w, seen)
  {
    assert IsKnotted(w, r.name, knot);
    var v := w.vars[r.name].value;
    var i :| 0 <= i < |v.refs| && NeedsKnot(v.refs[i], knot);
    if r.name !in seen {
      assert r.name in Unseen(w, seen) && r.name !in Unseen(w, seen + [r.name]);
      FitsAt(v.text.css, 0, |v.text.css|, v.refs, i);
      CyclesAreInvalid(w, knot, v.refs[i], seen + [r.name]);
      InvalidSpreads(w, v.text.css, 0, |v.text.css|, v.text.last, v.refs, seen + [r.name], EMPTY, v.text.first, 0,
                     false, i);
    }
  }
}
