/**
 * The square root of `math.sqrt`, a call into the C library that the model
 * cannot see. It is passed around as a function parameter and constrained by
 * `IsSqrt`, which says that on non-negative arguments it returns the
 * non-negative root.
 */
module Roots {

  ghost predicate IsSqrt(sqrt: real -> real) {
    forall x: real :: x >= 0.0 ==> sqrt(x) >= 0.0 && sqrt(x) * sqrt(x) == x
  }

  /** Two non-negative reals with the same square are equal. */
  lemma SquareInjective(r: real, s: real)
    requires r >= 0.0 && s >= 0.0
    requires r * r == s * s
    ensures r == s
  {
    if r < s {
      MulStrict(r, s);
    } else if s < r {
      MulStrict(s, r);
    }
  }

  lemma MulStrict(r: real, s: real)
    requires 0.0 <= r < s
    ensures r * r < s * s
  {
    var d := s - r;
    assert d > 0.0 && s > 0.0;
    assert d * s > 0.0;
    assert r * d >= 0.0;
    assert s * s - r * r == d * s + r * d;
  }

  /** The root is the only non-negative number squaring to its argument. */
  lemma SqrtUnique(sqrt: real -> real, x: real, r: real)
    requires IsSqrt(sqrt)
    requires r >= 0.0 && r * r == x
    ensures sqrt(x) == r
  {
    SquareInjective(sqrt(x), r);
  }

  lemma SqrtZeroIff(sqrt: real -> real, x: real)
    requires IsSqrt(sqrt)
    requires x >= 0.0
    ensures sqrt(x) == 0.0 <==> x == 0.0
    ensures x > 0.0 ==> sqrt(x) > 0.0
  {
    var s := sqrt(x);
    assert s * s == x;
    if s > 0.0 {
      MulStrict(0.0, s);
    }
  }

  lemma SqrtOne(sqrt: real -> real)
    requires IsSqrt(sqrt)
    ensures sqrt(1.0) == 1.0
  {
    SqrtUnique(sqrt, 1.0, 1.0);
  }

  /** `sqrt(c*c*x) == |c| * sqrt(x)`: scaling under the root. */
  lemma SqrtScale(sqrt: real -> real, c: real, x: real)
    requires IsSqrt(sqrt)
    requires x >= 0.0
    ensures sqrt(c * c * x) == (if c < 0.0 then -c else c) * sqrt(x)
  {
    var a := if c < 0.0 then -c else c;
    var s := sqrt(x);
    assert s >= 0.0 && s * s == x;
    assert a * a == c * c;
    assert (a * s) * (a * s) == (a * a) * (s * s);
    assert c * c * x >= 0.0;
    SqrtUnique(sqrt, c * c * x, a * s);
  }
}
