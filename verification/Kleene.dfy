/** Three-valued logic: "unknown" is a truth value that is not settled yet. */
module KleeneLogic {

  datatype Kleene = False | True | Unknown
  {
    /** The Boolean reading, with `unknown` for the unsettled value. */
    function ToBool(unknown: bool): bool {
      match this
      case True => true
      case False => false
      case Unknown => unknown
    }
  }

  function FromBool(b: bool): Kleene {
    if b then True else False
  }

  function Not(a: Kleene): Kleene {
    match a
    case True => False
    case False => True
    case Unknown => Unknown
  }

  function And(a: Kleene, b: Kleene): Kleene {
    if a.False? || b.False? then False
    else if a.Unknown? || b.Unknown? then Unknown
    else True
  }

  function Or(a: Kleene, b: Kleene): Kleene {
    if a.True? || b.True? then True
    else if a.Unknown? || b.Unknown? then Unknown
    else False
  }

  ghost predicate Contains(vs: seq<Kleene>, v: Kleene) {
    exists i | 0 <= i < |vs| :: vs[i] == v
  }

  /** The disjunction of a sequence, stated by which values occur in it. */
  ghost function Disjunction(vs: seq<Kleene>): Kleene {
    if Contains(vs, True) then True else if Contains(vs, Unknown) then Unknown else False
  }

  ghost function Conjunction(vs: seq<Kleene>): Kleene {
    if Contains(vs, False) then False else if Contains(vs, Unknown) then Unknown else True
  }

  /** `any_value`: stop at `value`; otherwise fold the rest with the operator that
      goes with it, and answer `onEmpty` when there is nothing to fold. */
  method AnyValue(vs: seq<Kleene>, value: Kleene) returns (r: Kleene)
    requires !value.Unknown?
    ensures value.True? ==> r == Disjunction(vs)
    ensures value.False? ==> r == Conjunction(vs)
  {
    var result: Kleene := Not(value);
    var empty := true;
    for n := 0 to |vs|
      invariant empty <==> n == 0
      invariant empty ==> result == Not(value)
      invariant forall i | 0 <= i < n :: vs[i] != value
      invariant result == if Contains(vs[..n], Unknown) then Unknown else Not(value)
    {
      if vs[n] == value {
        return vs[n];
      }
      assert vs[..n + 1] == vs[..n] + [vs[n]];
      result := if empty then vs[n] else if value.True? then Or(result, vs[n]) else And(result, vs[n]);
      empty := false;
      assert Contains(vs[..n + 1], Unknown) <==> Contains(vs[..n], Unknown) || vs[n].Unknown? by {
        if Contains(vs[..n], Unknown) {
          var i :| 0 <= i < n && vs[..n][i] == Unknown;
          assert vs[..n + 1][i] == Unknown;
        }
        if vs[n].Unknown? {
          assert vs[..n + 1][n] == Unknown;
        }
      }
    }
    assert vs[..|vs|] == vs;
    r := result;
  }
}
