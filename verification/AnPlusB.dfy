/** `An+B` evaluated in 32-bit arithmetic, against its definition over all `n`. */
module AnPlusB {
  import opened Semantics

  ghost predicate SomeStep(a: int, b: int, i: int) {
    exists n: nat :: a * n + b == i
  }

  lemma ProductSize(d: int, k: int)
    requires d > 0
    ensures k > 0 ==> d * k >= d
    ensures k < 0 ==> d * k <= -d
    ensures k >= 0 ==> d * k >= 0
  {
  }

  lemma ExactQuotient(d: int, m: nat)
    requires d > 0
    ensures d * m >= 0 && d * m / d == m
  {
    ProductSize(d, m);
    var q := d * m / d;
    assert d * (m - q) == d * m % d;
    ProductSize(d, m - q);
  }

  /** Truncating division undoes multiplication, whatever the signs. */
  lemma QuotientOfMultiple(a: int, m: nat)
    requires a != 0
    ensures TruncatedQuotient(a * m, a) == m
  {
    if a > 0 {
      ExactQuotient(a, m);
    } else {
      ExactQuotient(-a, m);
      assert -a * m == -(a * m);
    }
  }

  /** The code's test is the definition exactly as long as `i - b` fits in 32 bits;
      beyond that it always says no. */
  lemma MatchesIndexIffSomeStep(a: int, b: int, i: int)
    requires MIN_I32 <= a <= MAX_I32 && MIN_I32 <= b <= MAX_I32 && 1 <= i <= MAX_I32
    ensures MatchesIndex(a, b, i) <==> i - b <= MAX_I32 && SomeStep(a, b, i)
  {
    var an := i - b;
    if an <= MAX_I32 {
      if a == 0 {
        assert an == 0 ==> a * 0 + b == i;
      } else {
        forall n: nat | a * n + b == i
          ensures TruncatedQuotient(an, a) == n && a * TruncatedQuotient(an, a) == an
        {
          QuotientOfMultiple(a, n);
        }
        var q := TruncatedQuotient(an, a);
        assert q >= 0 && a * q == an ==> a * q + b == i;
      }
    }
  }

  /** `:nth-child(n - 2147483648)` matches every element, but the subtraction overflows
      for each of them. */
  lemma OverflowMissesEverything(i: int)
    requires 1 <= i <= MAX_I32
    ensures SomeStep(1, MIN_I32, i) && !MatchesIndex(1, MIN_I32, i)
  {
    assert 1 * (i - MIN_I32) + MIN_I32 == i;
  }
}
