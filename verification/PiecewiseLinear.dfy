/** Linear easing.

    Control points are collected, positions that are not given are filled in, and the
    resulting function is evaluated.

    Numbers are exact reals.  `epsilon` is the distance below which two positions count
    as the same. */
module PiecewiseLinear {
  import opened Dom

  /** An input that may not be finite. */
  datatype Float = Finite(value: real) | PositiveInfinity | NegativeInfinity | NotANumber

  datatype Entry = Entry(x: real, y: real)

  /** An entry whose position may still be open. */
  datatype BuildEntry = BuildEntry(x: Option<real>, y: real)

  function MaxReal(a: real, b: real): real {
    if a <= b then b else a
  }

  ghost predicate NonDecreasing(es: seq<Entry>) {
    forall i, j | 0 <= i <= j < |es| :: es[i].x <= es[j].x
  }

  // -------------------------------------------------------------- building

  /** The position a stop is given: finite, or 0 for a first stop without one. */
  function GivenX(stops: seq<(real, Option<Float>)>, i: nat): Option<real>
    requires i < |stops|
  {
    match stops[i].1
    case Some(Finite(v)) => Some(v)
    case _ => if i == 0 then Some(0.0) else None
  }

  /** The largest position given up to stop `i`. */
  function LargestX(stops: seq<(real, Option<Float>)>, i: nat): real
    requires i < |stops|
  {
    var before := if i == 0 then None else Some(LargestX(stops, i - 1));
    match (GivenX(stops, i), before)
    case (Some(v), None) => v
    case (Some(v), Some(b)) => MaxReal(v, b)
    case (None, Some(b)) => b
    case (None, None) => 0.0
  }

  /** What is known about the positions before the gaps are filled. */
  function KnownX(stops: seq<(real, Option<Float>)>, i: nat): Option<real>
    requires i < |stops|
  {
    if GivenX(stops, i).Some? then Some(LargestX(stops, i))
    else if i == |stops| - 1 then Some(MaxReal(1.0, LargestX(stops, i)))
    else None
  }

  /** Between two known positions the others are spread evenly. */
  ghost predicate EvenlyFilled(known: seq<Option<real>>, es: seq<Entry>)
    requires |es| <= |known|
  {
    forall a: nat, b: nat {:trigger OpenBetween(known, a, b)} |
      a < b < |es| && known[a].Some? && known[b].Some? && OpenBetween(known, a, b) ::
      SpreadEvenly(es, a, b)
  }

  /** Neighbours are as far apart as any others: all steps together make the stretch. */
  ghost predicate SpreadEvenly(es: seq<Entry>, a: nat, b: nat)
    requires a < b < |es|
  {
    forall k | a <= k < b :: (es[k + 1].x - es[k].x) * (b - a) as real == es[b].x - es[a].x
  }

  predicate OpenBetween(known: seq<Option<real>>, a: nat, b: nat)
    requires a < b <= |known|
  {
    forall k | a < k < b :: known[k].None?
  }

  function Spread(start: real, end: real, divisor: int, step: int): real
    requires divisor > 0
  {
    (end - start) / divisor as real * step as real + start
  }

  /** The function that the stops describe. */
  ghost predicate Describes(stops: seq<(real, Option<Float>)>, es: seq<Entry>) {
    && |es| == |stops|
    && (forall i | 0 <= i < |es| :: es[i].y == stops[i].0)
    && (|stops| == 1 ==> es[0].x == 0.0)
    && (|stops| > 1 ==>
          && (forall i | 0 <= i < |es| && KnownX(stops, i).Some? :: es[i].x == KnownX(stops, i).value)
          && EvenlyFilled(Known(stops), es))
    && NonDecreasing(es)
  }

  function Known(stops: seq<(real, Option<Float>)>): (known: seq<Option<real>>)
    ensures |known| == |stops| && forall i | 0 <= i < |stops| :: known[i] == KnownX(stops, i)
  {
    seq(|stops|, i requires 0 <= i < |stops| => KnownX(stops, i))
  }

  lemma {:induction false} LargestGrows(stops: seq<(real, Option<Float>)>, i: nat, j: nat)
    requires i <= j < |stops|
    ensures LargestX(stops, i) <= LargestX(stops, j)
    decreases j
  {
    if i < j {
      LargestGrows(stops, i, j - 1);
    }
  }

  /** Known positions never regress. */
  lemma KnownGrows(stops: seq<(real, Option<Float>)>, i: nat, j: nat)
    requires i <= j < |stops| && KnownX(stops, i).Some? && KnownX(stops, j).Some?
    ensures KnownX(stops, i).value <= KnownX(stops, j).value
  {
    LargestGrows(stops, i, j);
  }

  predicate IsGiven(stops: seq<(real, Option<Float>)>, i: nat)
    requires i < |stops|
  {
    stops[i].1.Some? && stops[i].1.value.Finite?
  }

  /** Positions that count for stop `i`: those given so far, 0 for a first stop without one,
      and 1 for a last stop without one. */
  ghost predicate Candidate(stops: seq<(real, Option<Float>)>, i: nat, x: real)
    requires i < |stops|
  {
    || (exists j | 0 <= j <= i :: stops[j].1 == Some(Finite(x)))
    || (!IsGiven(stops, 0) && x == 0.0)
    || (0 < i == |stops| - 1 && !IsGiven(stops, i) && x == 1.0)
  }

  lemma {:induction false} LargestIsLargest(stops: seq<(real, Option<Float>)>, i: nat)
    requires i < |stops|
    ensures forall j, v | 0 <= j <= i && stops[j].1 == Some(Finite(v)) :: v <= LargestX(stops, i)
    ensures !IsGiven(stops, 0) ==> 0.0 <= LargestX(stops, i)
    ensures (exists j | 0 <= j <= i :: stops[j].1 == Some(Finite(LargestX(stops, i))))
            || (!IsGiven(stops, 0) && LargestX(stops, i) == 0.0)
  {
    if i > 0 {
      LargestIsLargest(stops, i - 1);
    } else {
      assert IsGiven(stops, 0) ==> stops[0].1 == Some(Finite(LargestX(stops, 0)));
    }
  }

  /** A position is known for the first stop, the last, and those with a finite one; it is
      the largest of what counts. */
  lemma KnownIsLargest(stops: seq<(real, Option<Float>)>, i: nat)
    requires i < |stops|
    ensures KnownX(stops, i).Some? <==> i == 0 || i == |stops| - 1 || IsGiven(stops, i)
    ensures KnownX(stops, i).Some? ==>
              && Candidate(stops, i, KnownX(stops, i).value)
              && forall x | Candidate(stops, i, x) :: x <= KnownX(stops, i).value
  {
    LargestIsLargest(stops, i);
  }

  /** Later stops do not change what earlier ones were given. */
  lemma {:induction false} LargestOfPrefix(stops: seq<(real, Option<Float>)>, more: seq<(real, Option<Float>)>, i: nat)
    requires i < |stops|
    ensures LargestX(stops + more, i) == LargestX(stops, i) && GivenX(stops + more, i) == GivenX(stops, i)
  {
    if i > 0 {
      LargestOfPrefix(stops, more, i - 1);
    }
  }

  lemma StepsMakeStretch(start: real, end: real, divisor: int, step: int)
    requires divisor > 0
    ensures (Spread(start, end, divisor, step + 1) - Spread(start, end, divisor, step)) * divisor as real == end - start
    ensures Spread(start, end, divisor, 0) == start && Spread(start, end, divisor, divisor) == end
  {
    var increment := (end - start) / divisor as real;
    assert increment * divisor as real == end - start;
    assert increment * (step + 1) as real - increment * step as real == increment;
  }

  lemma SpreadIsEven(es: seq<Entry>, a: nat, b: nat)
    requires a < b < |es|
    requires forall k | a < k < b :: es[k].x == Spread(es[a].x, es[b].x, b - a, k - a)
    ensures SpreadEvenly(es, a, b)
  {
    forall k | a <= k < b
      ensures (es[k + 1].x - es[k].x) * (b - a) as real == es[b].x - es[a].x
    {
      StepsMakeStretch(es[a].x, es[b].x, b - a, k - a);
      assert es[k].x == Spread(es[a].x, es[b].x, b - a, k - a);
      assert es[k + 1].x == Spread(es[a].x, es[b].x, b - a, k + 1 - a);
    }
  }

  lemma SpreadIsBetween(start: real, end: real, divisor: int, i: int, j: int)
    requires divisor > 0 && start <= end && 0 <= i <= j <= divisor
    ensures start <= Spread(start, end, divisor, i) <= Spread(start, end, divisor, j) <= end
  {
    var increment := (end - start) / divisor as real;
    assert increment >= 0.0;
    assert increment * divisor as real == end - start;
    Scaled(increment, 0.0, i as real);
    Scaled(increment, i as real, j as real);
    Scaled(increment, j as real, divisor as real);
  }

  lemma Scaled(factor: real, a: real, b: real)
    requires factor >= 0.0 && a <= b
    ensures factor * a <= factor * b
  {
    assert factor * (b - a) >= 0.0;
  }

  class PiecewiseLinearFunctionBuilder {
    var largestX: Option<real>
    var smallestX: Option<real>
    var entries: seq<BuildEntry>
    /** The stops as they were pushed. */
    ghost var stops: seq<(real, Option<Float>)>

    ghost predicate Valid()
      reads this
    {
      && |entries| == |stops|
      && (forall i | 0 <= i < |stops| ::
            entries[i] == BuildEntry(if GivenX(stops, i).Some? then Some(LargestX(stops, i)) else None, stops[i].0))
      && largestX == (if stops == [] then None else Some(LargestX(stops, |stops| - 1)))
      && smallestX == (if stops == [] then None else Some(LargestX(stops, 0)))
    }

    constructor ()
      ensures Valid() && stops == []
    {
      largestX, smallestX, entries, stops := None, None, [], [];
    }

    method Push(y: real, xStart: Option<Float>)
      requires Valid()
      modifies this
      ensures Valid() && stops == old(stops) + [(y, xStart)]
    {
      CreateEntry(y, xStart);
    }

    /** Adds an entry that does not go back: a given position is kept, or raised to the
        largest so far. */
    method CreateEntry(y: real, given: Option<Float>)
      requires Valid()
      modifies this
      ensures Valid() && stops == old(stops) + [(y, given)]
      ensures |entries| == |old(entries)| + 1 && entries[..|old(entries)|] == old(entries)
      ensures var e := entries[|old(entries)|];
              && e.y == y
              && (e.x.Some? <==> old(entries) == [] || (given.Some? && given.value.Finite?))
              && (e.x.Some? ==>
                    forall i | 0 <= i < |old(entries)| && old(entries)[i].x.Some? ::
                      old(entries)[i].x.value <= e.x.value)
              && (given.Some? && given.value.Finite? ==>
                    && given.value.value <= e.x.value
                    && (e.x == Some(given.value.value) || e.x == old(largestX)))
    {
      ghost var before := stops;
      stops := stops + [(y, given)];
      forall i | 0 <= i < |before|
        ensures LargestX(stops, i) == LargestX(before, i) && GivenX(stops, i) == GivenX(before, i)
        ensures LargestX(stops, i) <= LargestX(stops, |before|)
      {
        LargestOfPrefix(before, [(y, given)], i);
        LargestGrows(stops, i, |before|);
      }
      var x: real;
      if given.Some? && given.value.Finite? {
        x := given.value.value;
      } else if entries == [] {
        x := 0.0;
      } else {
        entries := entries + [BuildEntry(None, y)];
        return;
      }
      if largestX.Some? {
        x := MaxReal(x, largestX.value);
      }
      largestX := Some(x);
      if smallestX.None? {
        smallestX := Some(x);
      }
      entries := entries + [BuildEntry(Some(x), y)];
    }

    method Build() returns (result: seq<Entry>)
      requires Valid()
      modifies this`entries
      ensures Describes(stops, result)
    {
      if entries == [] {
        return [];
      }
      if |entries| == 1 {
        return [Entry(0.0, entries[0].y)];
      }
      var last := |entries| - 1;
      if entries[last].x.None? {
        var x := if largestX.Some? && largestX.value > 1.0 then largestX.value else 1.0;
        entries := entries[last := BuildEntry(Some(x), entries[last].y)];
      }
      assert forall i | 0 <= i < |stops| :: entries[i] == BuildEntry(KnownX(stops, i), stops[i].0);
      result := FillGaps();
    }

    /** Fills the gaps, one stretch of open positions at a time. */
    method FillGaps() returns (result: seq<Entry>)
      requires |entries| == |stops| > 1
      requires forall i | 0 <= i < |stops| :: entries[i] == BuildEntry(KnownX(stops, i), stops[i].0)
      ensures Describes(stops, result)
    {
      result := [Entry(entries[0].x.value, entries[0].y)];
      for i := 1 to |entries|
        invariant 0 < |result| <= i && KnownX(stops, |result| - 1).Some?
        invariant forall k | |result| <= k < i :: entries[k].x.None?
        invariant Filled(stops, result)
      {
        var e := entries[i];
        if e.x.Some? {
          var divisor := i - |result| + 1;
          ghost var before := result;
          if divisor != 1 {
            result := ExtendEvenly(result, i, e.x.value, divisor);
          }
          result := result + [Entry(e.x.value, e.y)];
          StretchIsFilled(stops, before, result, i);
        }
      }
      assert KnownX(stops, |stops| - 1).Some?;
      FilledDescribes(stops, result);
    }

    method ExtendEvenly(filled: seq<Entry>, i: nat, end: real, divisor: int) returns (result: seq<Entry>)
      requires 0 < |filled| < i < |entries| && divisor == i - |filled| + 1
      ensures |result| == i && result[..|filled|] == filled
      ensures forall k | |filled| <= k < i ::
                result[k] == Entry(Spread(filled[|filled| - 1].x, end, divisor, k - |filled| + 1), entries[k].y)
    {
      var startX := filled[|filled| - 1].x;
      var increment := (end - startX) / divisor as real;
      result := filled;
      for j := 0 to i - |filled|
        invariant |result| == |filled| + j && result[..|filled|] == filled
        invariant forall k | |filled| <= k < |result| ::
                    result[k] == Entry(Spread(startX, end, divisor, k - |filled| + 1), entries[k].y)
      {
        result := result + [Entry(increment * (j + 1) as real + startX, entries[|filled| + j].y)];
      }
    }
  }

  /** The first entries of the result, up to a known position. */
  ghost predicate Filled(stops: seq<(real, Option<Float>)>, es: seq<Entry>) {
    && |es| <= |stops|
    && (forall i | 0 <= i < |es| :: es[i].y == stops[i].0)
    && (forall i | 0 <= i < |es| && KnownX(stops, i).Some? :: es[i].x == KnownX(stops, i).value)
    && EvenlyFilled(Known(stops), es)
    && NonDecreasing(es)
  }

  lemma FilledDescribes(stops: seq<(real, Option<Float>)>, es: seq<Entry>)
    requires |stops| > 1 && Filled(stops, es) && |es| > 0
    requires KnownX(stops, |es| - 1).Some? && forall k | |es| <= k < |stops| :: KnownX(stops, k).None?
    ensures Describes(stops, es)
  {
    assert KnownX(stops, |stops| - 1).Some?;
  }

  /** One more known position, with the open ones before it spread evenly. */
  lemma StretchIsFilled(stops: seq<(real, Option<Float>)>, before: seq<Entry>, es: seq<Entry>, i: nat)
    requires 0 < |before| <= i < |stops| && |es| == i + 1 && es[..|before|] == before && Filled(stops, before)
    requires KnownX(stops, |before| - 1).Some? && KnownX(stops, i) == Some(es[i].x) && es[i].y == stops[i].0
    requires forall k | |before| <= k < i :: KnownX(stops, k).None?
    requires forall k | |before| <= k < i ::
               es[k] == Entry(Spread(before[|before| - 1].x, es[i].x, i - |before| + 1, k - |before| + 1), stops[k].0)
    ensures Filled(stops, es)
  {
    var m := |before| - 1;
    KnownGrows(stops, m, i);
    assert forall k | 0 <= k <= m :: es[k] == before[k];
    StretchIsOrdered(es, m, i);
    SpreadIsEven(es, m, i);
    forall a: nat, b: nat | a < b < |es| && OpenBetween(Known(stops), a, b)
      && Known(stops)[a].Some? && Known(stops)[b].Some?
      ensures SpreadEvenly(es, a, b)
    {
      if b < |before| {
        assert SpreadEvenly(before, a, b);
        SameSpread(before, es, a, b);
      } else {
        assert b == i && a == m;
      }
    }
  }

  lemma SameSpread(before: seq<Entry>, es: seq<Entry>, a: nat, b: nat)
    requires a < b < |before| <= |es| && es[..|before|] == before && SpreadEvenly(before, a, b)
    ensures SpreadEvenly(es, a, b)
  {
    forall k | a <= k < b
      ensures (es[k + 1].x - es[k].x) * (b - a) as real == es[b].x - es[a].x
    {
      assert es[k] == before[k] && es[k + 1] == before[k + 1] && es[a] == before[a] && es[b] == before[b];
    }
  }

  lemma StretchIsOrdered(es: seq<Entry>, m: nat, i: nat)
    requires m < i < |es| && |es| == i + 1 && NonDecreasing(es[..m + 1]) && es[m].x <= es[i].x
    requires forall k | m < k < i :: es[k].x == Spread(es[m].x, es[i].x, i - m, k - m)
    ensures NonDecreasing(es)
  {
    forall a, b | 0 <= a <= b < |es|
      ensures es[a].x <= es[b].x
    {
      if a <= m {
        assert es[a] == es[..m + 1][a] && es[m] == es[..m + 1][m];
      }
      if b <= m {
        assert es[b] == es[..m + 1][b];
      } else if b < i {
        SpreadIsBetween(es[m].x, es[i].x, i - m, if a <= m then 0 else a - m, b - m);
      } else if m < a < i {
        SpreadIsBetween(es[m].x, es[i].x, i - m, a - m, i - m);
      }
    }
  }

  // ------------------------------------------------------------ evaluating

  predicate Near(epsilon: real, a: real, b: real) {
    -epsilon < a - b < epsilon
  }

  function Interpolate(epsilon: real, x: real, prev: Entry, next: Entry, asymptote: Entry): real
    requires epsilon > 0.0
  {
    if Near(epsilon, x, next.x) then next.y
    else if Near(epsilon, x, prev.x) then prev.y
    else if Near(epsilon, prev.x, next.x) then next.y
    else (next.y - prev.y) / (next.x - prev.x) * (x - asymptote.x) + asymptote.y
  }

  predicate Between(v: real, a: real, b: real) {
    a <= v <= b || b <= v <= a
  }

  /** Between two points the value lies between theirs. */
  lemma InterpolationIsBetween(epsilon: real, x: real, prev: Entry, next: Entry)
    requires epsilon > 0.0 && prev.x <= x <= next.x
    ensures Between(Interpolate(epsilon, x, prev, next, prev), prev.y, next.y)
  {
    if !Near(epsilon, prev.x, next.x) {
      ShareIsBetween(next.y - prev.y, next.x - prev.x, x - prev.x);
    }
  }

  lemma ShareIsBetween(rise: real, width: real, part: real)
    requires width > 0.0 && 0.0 <= part <= width
    ensures Between(rise / width * part, 0.0, rise)
  {
    var slope := rise / width;
    assert slope * width == rise;
    if slope >= 0.0 {
      Scaled(slope, 0.0, part);
      Scaled(slope, part, width);
    } else {
      Scaled(-slope, 0.0, part);
      Scaled(-slope, part, width);
      assert -slope * part == -(slope * part) && -slope * width == -(slope * width);
    }
  }

  /** The last entry at or before `x`, when it is not the last of all. */
  ghost predicate Brackets(es: seq<Entry>, x: real, j: nat) {
    j + 1 < |es| && es[j].x <= x && forall k | j < k < |es| :: x < es[k].x
  }

  ghost predicate InSegment(es: seq<Entry>, x: real, y: real, j: nat) {
    j + 1 < |es| && es[j].x <= x <= es[j + 1].x && Between(y, es[j].y, es[j + 1].y)
  }

  /** Some segment around `x` has `y` between its two ends. */
  ghost predicate WithinSegment(es: seq<Entry>, x: real, y: real) {
    exists j: nat :: InSegment(es, x, y, j)
  }

  lemma BracketIsUnique(es: seq<Entry>, x: real, j: nat, k: nat)
    requires Brackets(es, x, j) && Brackets(es, x, k)
    ensures j == k
  {
  }

  /** At a control point the function takes the value of the last point there, if the
      next position is far enough away. */
  lemma PointsAreHit(epsilon: real, es: seq<Entry>, x: real, j: nat)
    requires epsilon > 0.0 && Brackets(es, x, j) && x == es[j].x && es[j + 1].x - x >= epsilon
    ensures Interpolate(epsilon, x, es[j], es[j + 1], es[j]) == es[j].y
  {
  }

  /** `y` is at `x` on the straight line through `a` and `b`. */
  predicate OnLine(a: Entry, b: Entry, x: real, y: real) {
    (y - a.y) * (b.x - a.x) == (b.y - a.y) * (x - a.x)
  }

  predicate Apart(epsilon: real, a: real, b: real) {
    a + epsilon <= b || b + epsilon <= a
  }

  /** `y` is at `x` on the line through the two points, extended as needed; it is that of a
      point in its neighbourhood, the later one first, and constant if they are in one place. */
  ghost predicate FollowsLine(epsilon: real, a: Entry, b: Entry, x: real, y: real) {
    && (Apart(epsilon, x, a.x) && Apart(epsilon, x, b.x) && Apart(epsilon, a.x, b.x) ==> OnLine(a, b, x, y))
    && (Apart(epsilon, x, a.x) && Apart(epsilon, x, b.x) && !Apart(epsilon, a.x, b.x) ==> y == b.y)
    && (!Apart(epsilon, x, b.x) ==> y == b.y)
    && (!Apart(epsilon, x, a.x) && Apart(epsilon, x, b.x) ==> y == a.y)
  }

  lemma InterpolationFollowsLine(epsilon: real, x: real, prev: Entry, next: Entry, asymptote: Entry)
    requires epsilon > 0.0 && (asymptote == prev || asymptote == next)
    ensures FollowsLine(epsilon, prev, next, x, Interpolate(epsilon, x, prev, next, asymptote))
  {
    if !Near(epsilon, x, next.x) && !Near(epsilon, x, prev.x) && !Near(epsilon, prev.x, next.x) {
      LineThroughBoth(prev, next, x, asymptote);
    }
  }

  lemma LineThroughBoth(prev: Entry, next: Entry, x: real, asymptote: Entry)
    requires prev.x != next.x && (asymptote == prev || asymptote == next)
    ensures OnLine(prev, next, x, (next.y - prev.y) / (next.x - prev.x) * (x - asymptote.x) + asymptote.y)
  {
    var rise, width := next.y - prev.y, next.x - prev.x;
    var slope := rise / width;
    assert slope * width == rise;
    var y := slope * (x - asymptote.x) + asymptote.y;
    if asymptote == prev {
      assert (slope * (x - prev.x)) * width == (slope * width) * (x - prev.x);
    } else {
      assert slope * (x - next.x) == slope * (x - prev.x) - slope * width;
      assert y - prev.y == slope * (x - prev.x);
      assert (slope * (x - prev.x)) * width == (slope * width) * (x - prev.x);
    }
  }

  method At(epsilon: real, es: seq<Entry>, input: Float) returns (r: real)
    requires epsilon > 0.0 && NonDecreasing(es)
    ensures !input.Finite? ==> r == if input.PositiveInfinity? then 1.0 else 0.0
    ensures input.Finite? && es == [] ==> r == input.value
    ensures input.Finite? && |es| == 1 ==> r == es[0].y
    ensures input.Finite? && |es| > 1 && input.value < es[0].x ==>
              r == Interpolate(epsilon, input.value, es[0], es[1], es[0])
    ensures input.Finite? && |es| > 1 && es[|es| - 1].x <= input.value ==>
              r == Interpolate(epsilon, input.value, es[|es| - 2], es[|es| - 1], es[|es| - 1])
    ensures input.Finite? && |es| > 1 && es[0].x <= input.value < es[|es| - 1].x ==>
              exists j: nat :: Brackets(es, input.value, j)
                               && r == Interpolate(epsilon, input.value, es[j], es[j + 1], es[j])
    ensures input.Finite? && |es| > 1 && es[0].x <= input.value <= es[|es| - 1].x ==> WithinSegment(es, input.value, r)
    ensures input.Finite? && |es| > 1 && input.value < es[0].x ==> FollowsLine(epsilon, es[0], es[1], input.value, r)
    ensures input.Finite? && |es| > 1 && es[|es| - 1].x <= input.value ==>
              FollowsLine(epsilon, es[|es| - 2], es[|es| - 1], input.value, r)
    ensures input.Finite? && |es| > 1 && es[0].x <= input.value < es[|es| - 1].x ==>
              exists j: nat :: Brackets(es, input.value, j) && FollowsLine(epsilon, es[j], es[j + 1], input.value, r)
  {
    if !input.Finite? {
      return if input.PositiveInfinity? then 1.0 else 0.0;
    }
    var x := input.value;
    if es == [] {
      return x;
    }
    if |es| == 1 {
      return es[0].y;
    }
    if x < es[0].x {
      InterpolationFollowsLine(epsilon, x, es[0], es[1], es[0]);
      return Interpolate(epsilon, x, es[0], es[1], es[0]);
    }
    var last := |es| - 1;
    if x >= es[last].x {
      InterpolationFollowsLine(epsilon, x, es[last - 1], es[last], es[last]);
      r := Interpolate(epsilon, x, es[last - 1], es[last], es[last]);
      assert x == es[last].x ==> r == es[last].y && InSegment(es, x, r, last - 1);
      return;
    }
    var b := last;
    while x < es[b - 1].x
      invariant 0 < b <= last && forall k | b <= k < |es| :: x < es[k].x
      decreases b
    {
      b := b - 1;
    }
    assert Brackets(es, x, b - 1);
    r := Interpolate(epsilon, x, es[b - 1], es[b], es[b - 1]);
    InterpolationIsBetween(epsilon, x, es[b - 1], es[b]);
    InterpolationFollowsLine(epsilon, x, es[b - 1], es[b], es[b - 1]);
    assert InSegment(es, x, r, b - 1);
  }
}
