/**
 * The `Vector` class of vector.py: a wrapper around a list of numbers whose
 * operations all return a new vector. Components are modelled as `real`;
 * `math.sqrt` is the parameter `sqrt`, assumed to satisfy `Roots.IsSqrt`
 * wherever a property depends on it.
 */
module Vectors {
  import opened Outcomes
  import opened Sums
  import Roots

  datatype Vector = Vector(vals: seq<real>)

  /** One positional argument of the constructor `Vector(*args)`. */
  datatype Arg = Scalar(x: real) | List(xs: seq<real>)

  function Min(a: int, b: int): int {
    if a <= b then a else b
  }

  ghost predicate AllScalars(args: seq<Arg>) {
    forall i :: 0 <= i < |args| ==> args[i].Scalar?
  }

  /**
   * `Vector(*args)`: a first argument that is a list becomes the components
   * (later arguments are ignored); otherwise the arguments themselves are the
   * components. With no argument at all, reading `args[0]` raises IndexError.
   */
  function Construct(args: seq<Arg>): (r: Result<Vector>)
    ensures |args| == 0 ==> r == Err(IndexOutOfRange)
    ensures |args| > 0 && args[0].List? ==> r == Ok(Vector(args[0].xs))
    ensures r.Ok? <==> |args| > 0 && (args[0].List? || AllScalars(args))
    ensures r.Ok? && args[0].Scalar? ==>
      |r.value.vals| == |args| && forall i :: 0 <= i < |args| ==> r.value.vals[i] == args[i].x
  {
    if |args| == 0 then Err(IndexOutOfRange)
    else if args[0].List? then Ok(Vector(args[0].xs))
    else if forall i :: 0 <= i < |args| ==> args[i].Scalar? then
      Ok(Vector(seq(|args|, i requires 0 <= i < |args| => args[i].x)))
    else Err(NotAScalar)
  }

  /** The positional arguments `Vector(xs[0], xs[1], ...)`. */
  function Scalars(xs: seq<real>): (r: seq<Arg>)
    ensures |r| == |xs| && AllScalars(r)
    ensures forall i :: 0 <= i < |xs| ==> r[i] == Scalar(xs[i])
  {
    seq(|xs|, i requires 0 <= i < |xs| => Scalar(xs[i]))
  }

  /** The two calling conventions build the same vector from the same numbers. */
  lemma ConstructForms(xs: seq<real>)
    requires |xs| > 0
    ensures Construct([List(xs)]) == Ok(Vector(xs))
    ensures Construct(Scalars(xs)) == Ok(Vector(xs))
  {
    var r := Construct(Scalars(xs));
    assert r.value.vals == xs;
  }

  /** Python's `zip`: pairs up components and stops at the shorter list. */
  function Zip(xs: seq<real>, ys: seq<real>): (r: seq<(real, real)>)
    ensures |r| == Min(|xs|, |ys|)
    ensures forall i :: 0 <= i < |r| ==> r[i] == (xs[i], ys[i])
    decreases |xs|
  {
    if |xs| == 0 || |ys| == 0 then []
    else [(xs[0], ys[0])] + Zip(xs[1..], ys[1..])
  }

  /**
   * The terms `i*j for (i, j) in zip(xs, ys)` that `dot` sums, indexed
   * directly over the common length; `ZipForms` shows this is the `zip` reading.
   */
  function Products(xs: seq<real>, ys: seq<real>): seq<real> {
    seq(Min(|xs|, |ys|), i requires 0 <= i < Min(|xs|, |ys|) => xs[i] * ys[i])
  }

  /** `magnitude`: the root of the sum of squares, never negative for a genuine root. */
  function Magnitude(v: Vector, sqrt: real -> real): (r: real)
    ensures Roots.IsSqrt(sqrt) ==> r >= 0.0
  {
    SumSqNonNegative(v.vals);
    sqrt(SumSq(v.vals))
  }

  /** `dot`: the sum of the products over `zip`, so an empty operand gives 0. */
  function Dot(a: Vector, b: Vector): (r: real)
    ensures |a.vals| == 0 || |b.vals| == 0 ==> r == 0.0
  {
    Sum(Products(a.vals, b.vals))
  }

  /** Componentwise sum over `zip`: as long as the shorter operand. */
  function Add(a: Vector, b: Vector): (r: Vector)
    ensures |r.vals| == Min(|a.vals|, |b.vals|)
  {
    var n := Min(|a.vals|, |b.vals|);
    Vector(seq(n, i requires 0 <= i < n => a.vals[i] + b.vals[i]))
  }

  /** Componentwise difference over `zip`: as long as the shorter operand. */
  function Subtract(a: Vector, b: Vector): (r: Vector)
    ensures |r.vals| == Min(|a.vals|, |b.vals|)
  {
    var n := Min(|a.vals|, |b.vals|);
    Vector(seq(n, i requires 0 <= i < n => a.vals[i] - b.vals[i]))
  }

  /** `multiply`: every component scaled, the length kept. */
  function Multiply(v: Vector, scalar: real): (r: Vector)
    ensures |r.vals| == |v.vals|
  {
    Vector(seq(|v.vals|, i requires 0 <= i < |v.vals| => v.vals[i] * scalar))
  }

  /**
   * `dot`, `add` and `subtract` each combine the pairs that `zip` yields, one
   * pair per position of the shorter operand.
   */
  lemma ZipForms(a: Vector, b: Vector)
    ensures var pairs := Zip(a.vals, b.vals);
      && Products(a.vals, b.vals) == seq(|pairs|, i requires 0 <= i < |pairs| => pairs[i].0 * pairs[i].1)
      && Add(a, b).vals == seq(|pairs|, i requires 0 <= i < |pairs| => pairs[i].0 + pairs[i].1)
      && Subtract(a, b).vals == seq(|pairs|, i requires 0 <= i < |pairs| => pairs[i].0 - pairs[i].1)
  {
    var pairs := Zip(a.vals, b.vals);
    var p := seq(|pairs|, i requires 0 <= i < |pairs| => pairs[i].0 * pairs[i].1);
    var s := seq(|pairs|, i requires 0 <= i < |pairs| => pairs[i].0 + pairs[i].1);
    var d := seq(|pairs|, i requires 0 <= i < |pairs| => pairs[i].0 - pairs[i].1);
    forall i | 0 <= i < |pairs|
      ensures Products(a.vals, b.vals)[i] == p[i]
      ensures Add(a, b).vals[i] == s[i]
      ensures Subtract(a, b).vals[i] == d[i]
    {
      assert pairs[i] == (a.vals[i], b.vals[i]);
    }
  }

  /**
   * `divide` multiplies by `1.0/scalar`; the reciprocal is taken first, so a
   * zero scalar raises ZeroDivisionError even for the empty vector.
   */
  function Divide(v: Vector, scalar: real): (r: Result<Vector>)
    ensures r.Ok? <==> scalar != 0.0
    ensures r.Err? ==> r.error == ZeroDivision
    ensures r.Ok? ==> |r.value.vals| == |v.vals| && Multiply(r.value, scalar) == v
  {
    if scalar == 0.0 then Err(ZeroDivision)
    else
      var q := Multiply(v, 1.0 / scalar);
      ScaleRoundTrip(v, 1.0 / scalar, scalar);
      Ok(q)
  }

  /** Multiplying by `c` and then by `d` with `c*d == 1` gives the vector back. */
  lemma ScaleRoundTrip(v: Vector, c: real, d: real)
    requires c * d == 1.0
    ensures Multiply(Multiply(v, c), d) == v
  {
    var w := Multiply(Multiply(v, c), d);
    forall i | 0 <= i < |v.vals|
      ensures w.vals[i] == v.vals[i]
    {
      calc {
        w.vals[i];
        (v.vals[i] * c) * d;
        v.vals[i] * (c * d);
      }
    }
  }

  /**
   * `normalise` divides every component by the magnitude. The magnitude is
   * only evaluated for a component, so the empty vector normalises to itself;
   * a non-empty zero vector raises ZeroDivisionError.
   */
  function Normalise(v: Vector, sqrt: real -> real): (r: Result<Vector>)
    requires Roots.IsSqrt(sqrt)
    ensures r.Err? <==> |v.vals| > 0 && AllZero(v.vals)
    ensures r.Err? ==> r.error == ZeroDivision
    ensures r.Ok? ==> |r.value.vals| == |v.vals|
    ensures r.Ok? ==> Multiply(r.value, Magnitude(v, sqrt)) == v
    ensures r.Ok? && |v.vals| > 0 ==> Magnitude(r.value, sqrt) == 1.0
  {
    MagnitudeFacts(v, sqrt);
    if |v.vals| == 0 then Ok(v)
    else
      var m := Magnitude(v, sqrt);
      if m == 0.0 then Err(ZeroDivision)
      else
        var u := Vector(seq(|v.vals|, i requires 0 <= i < |v.vals| => v.vals[i] / m));
        NormalisedIsUnit(v, sqrt, u);
        Ok(u)
  }

  /** The magnitude is a non-negative root of the sum of squares, zero only on the zero vector. */
  lemma MagnitudeFacts(v: Vector, sqrt: real -> real)
    requires Roots.IsSqrt(sqrt)
    ensures Magnitude(v, sqrt) >= 0.0
    ensures Magnitude(v, sqrt) * Magnitude(v, sqrt) == SumSq(v.vals)
    ensures Magnitude(v, sqrt) == 0.0 <==> AllZero(v.vals)
  {
    SumSqNonNegative(v.vals);
    SumSqZeroIff(v.vals);
    Roots.SqrtZeroIff(sqrt, SumSq(v.vals));
  }

  lemma NormalisedIsUnit(v: Vector, sqrt: real -> real, u: Vector)
    requires Roots.IsSqrt(sqrt)
    requires Magnitude(v, sqrt) != 0.0
    requires |u.vals| == |v.vals|
    requires forall i :: 0 <= i < |v.vals| ==> u.vals[i] == v.vals[i] / Magnitude(v, sqrt)
    ensures Multiply(u, Magnitude(v, sqrt)) == v
    ensures Magnitude(u, sqrt) == 1.0
  {
    var m := Magnitude(v, sqrt);
    QuotientsHaveUnitSquares(v, sqrt, u);
    Roots.SqrtOne(sqrt);
    QuotientsScaleBack(v, m, u);
  }

  /** Dividing every component by the magnitude leaves a sum of squares of one. */
  lemma QuotientsHaveUnitSquares(v: Vector, sqrt: real -> real, u: Vector)
    requires Roots.IsSqrt(sqrt)
    requires Magnitude(v, sqrt) != 0.0
    requires |u.vals| == |v.vals|
    requires forall i :: 0 <= i < |v.vals| ==> u.vals[i] == v.vals[i] / Magnitude(v, sqrt)
    ensures SumSq(u.vals) == 1.0
  {
    var m := Magnitude(v, sqrt);
    var k := 1.0 / m;
    MagnitudeFacts(v, sqrt);
    forall i | 0 <= i < |v.vals|
      ensures u.vals[i] == k * v.vals[i]
    {
    }
    SumSqScale(v.vals, u.vals, k);
    ReciprocalSquared(m, k, SumSq(v.vals), SumSq(u.vals));
  }

  /** Multiplying the quotients `v[i] / m` back by `m` restores `v`. */
  lemma QuotientsScaleBack(v: Vector, m: real, u: Vector)
    requires m != 0.0
    requires |u.vals| == |v.vals|
    requires forall i :: 0 <= i < |v.vals| ==> u.vals[i] == v.vals[i] / m
    ensures Multiply(u, m) == v
  {
    var w := Multiply(u, m);
    forall i | 0 <= i < |v.vals|
      ensures w.vals[i] == v.vals[i]
    {
      assert w.vals[i] == (v.vals[i] / m) * m;
    }
  }

  lemma ReciprocalSquared(m: real, k: real, x: real, y: real)
    requires m != 0.0 && k == 1.0 / m && x == m * m && y == k * k * x
    ensures y == 1.0
  {
    assert k * m == 1.0;
    assert y == (k * m) * (k * m);
  }

  /**
   * The right-handed cross product of the first three components; a shorter
   * operand raises IndexError, and extra components are ignored.
   */
  function Cross(a: Vector, b: Vector): (r: Result<Vector>)
    ensures r.Ok? <==> |a.vals| >= 3 && |b.vals| >= 3
    ensures r.Err? ==> r.error == IndexOutOfRange
    ensures r.Ok? ==> |r.value.vals| == 3
    ensures r.Ok? ==> Dot(a, r.value) == 0.0 && Dot(b, r.value) == 0.0
  {
    if |a.vals| < 3 || |b.vals| < 3 then Err(IndexOutOfRange)
    else
      var x, y := a.vals, b.vals;
      var c := Vector([x[1] * y[2] - x[2] * y[1],
                       x[2] * y[0] - x[0] * y[2],
                       x[0] * y[1] - x[1] * y[0]]);
      DotWithTriple(a, c);
      DotWithTriple(b, c);
      Ok(c)
  }

  /** Against a 3-vector, `dot` reads exactly the first three components. */
  lemma DotWithTriple(a: Vector, c: Vector)
    requires |a.vals| >= 3 && |c.vals| == 3
    ensures Dot(a, c) == a.vals[0] * c.vals[0] + a.vals[1] * c.vals[1] + a.vals[2] * c.vals[2]
  {
    SumOfThree(Products(a.vals, c.vals));
  }

  // Properties of add and subtract

  /** Subtracting and adding back the same vector returns `a`, cut to the shorter length. */
  lemma AddSubtractRoundTrip(a: Vector, b: Vector)
    ensures Add(Subtract(a, b), b) == Vector(a.vals[..Min(|a.vals|, |b.vals|)])
    ensures |a.vals| == |b.vals| ==> Add(Subtract(a, b), b) == a
  {
    var r := Add(Subtract(a, b), b);
    assert r.vals == a.vals[..Min(|a.vals|, |b.vals|)];
  }

  /** The difference is all zeros exactly when the operands agree on their common length. */
  lemma SubtractZeroIff(a: Vector, b: Vector)
    ensures var n := Min(|a.vals|, |b.vals|);
      AllZero(Subtract(a, b).vals) <==> a.vals[..n] == b.vals[..n]
  {
    var n := Min(|a.vals|, |b.vals|);
    var d := Subtract(a, b).vals;
    if AllZero(d) {
      forall i | 0 <= i < n
        ensures a.vals[..n][i] == b.vals[..n][i]
      {
        assert d[i] == a.vals[i] - b.vals[i] == 0.0;
      }
    }
  }

  lemma SubtractSelfIsZero(a: Vector)
    ensures |Subtract(a, a).vals| == |a.vals|
    ensures AllZero(Subtract(a, a).vals)
  {
  }

  lemma AddCommutative(a: Vector, b: Vector)
    ensures Add(a, b) == Add(b, a)
  {
    assert Add(a, b).vals == Add(b, a).vals;
  }

  /** Subtracting `b` is adding `b` scaled by -1. */
  lemma SubtractIsAddNegated(a: Vector, b: Vector)
    ensures Subtract(a, b) == Add(a, Multiply(b, -1.0))
  {
    assert Subtract(a, b).vals == Add(a, Multiply(b, -1.0)).vals;
  }

  // Properties of dot

  lemma DotCommutative(a: Vector, b: Vector)
    ensures Dot(a, b) == Dot(b, a)
  {
    assert Products(a.vals, b.vals) == Products(b.vals, a.vals);
  }

  /** A vector dotted with itself is the sum of squares under `magnitude`'s root. */
  lemma DotSelfIsSumOfSquares(v: Vector, sqrt: real -> real)
    ensures Dot(v, v) == SumSq(v.vals)
    ensures Dot(v, v) >= 0.0
    ensures Magnitude(v, sqrt) == sqrt(Dot(v, v))
  {
    var p, q := Products(v.vals, v.vals), Squares(v.vals);
    forall i | 0 <= i < |p|
      ensures p[i] == q[i]
    {
    }
    assert p == q;
    SumSqNonNegative(v.vals);
  }

  /** The magnitude squared is the vector dotted with itself. */
  lemma MagnitudeSquared(v: Vector, sqrt: real -> real)
    requires Roots.IsSqrt(sqrt)
    ensures Magnitude(v, sqrt) * Magnitude(v, sqrt) == Dot(v, v)
  {
    var m, d := Magnitude(v, sqrt), Dot(v, v);
    assert d == SumSq(v.vals) by {
      DotSelfIsSumOfSquares(v, sqrt);
    }
    assert m * m == SumSq(v.vals) by {
      MagnitudeFacts(v, sqrt);
    }
  }

  /** `dot` only sees the components both operands have. */
  lemma DotTruncates(a: Vector, b: Vector)
    ensures var n := Min(|a.vals|, |b.vals|);
      Dot(a, b) == Dot(Vector(a.vals[..n]), Vector(b.vals[..n]))
  {
    var n := Min(|a.vals|, |b.vals|);
    var p, q := Products(a.vals, b.vals), Products(a.vals[..n], b.vals[..n]);
    forall i | 0 <= i < |p|
      ensures p[i] == q[i]
    {
    }
    assert p == q;
  }

  lemma DotScale(a: Vector, b: Vector, s: real)
    ensures Dot(Multiply(a, s), b) == s * Dot(a, b)
  {
    var p, q := Products(a.vals, b.vals), Products(Multiply(a, s).vals, b.vals);
    assert Sum(q) == s * Sum(p) by {
      ProductsScale(a, b, s, p, q);
      SumScale(p, q, s);
    }
  }

  lemma ProductsScale(a: Vector, b: Vector, s: real, p: seq<real>, q: seq<real>)
    requires p == Products(a.vals, b.vals) && q == Products(Multiply(a, s).vals, b.vals)
    ensures |q| == |p| && forall i :: 0 <= i < |p| ==> q[i] == s * p[i]
  {
    var sa := Multiply(a, s);
    forall i | 0 <= i < |p|
      ensures q[i] == s * p[i]
    {
      var x, y := a.vals[i], b.vals[i];
      assert q[i] == sa.vals[i] * y;
      assert sa.vals[i] == x * s;
      assert (x * s) * y == s * (x * y);
    }
  }

  lemma DotAddDistributes(a: Vector, b: Vector, c: Vector)
    requires |a.vals| == |b.vals|
    ensures Dot(Add(a, b), c) == Dot(a, c) + Dot(b, c)
  {
    var p, q, r := Products(a.vals, c.vals), Products(b.vals, c.vals), Products(Add(a, b).vals, c.vals);
    assert Sum(r) == Sum(p) + Sum(q) by {
      forall i | 0 <= i < |r|
        ensures r[i] == p[i] + q[i]
      {
        var x, y, z := a.vals[i], b.vals[i], c.vals[i];
        assert (x + y) * z == x * z + y * z;
      }
      SumAdd(p, q, r);
    }
  }

  // Properties of multiply, divide, magnitude and normalise

  lemma MultiplyCompose(v: Vector, s: real, t: real)
    ensures Multiply(Multiply(v, s), t) == Multiply(v, s * t)
  {
    var l, r := Multiply(Multiply(v, s), t), Multiply(v, s * t);
    forall i | 0 <= i < |v.vals|
      ensures l.vals[i] == r.vals[i]
    {
      assert (v.vals[i] * s) * t == v.vals[i] * (s * t);
    }
  }

  /** Dividing a scaled vector by the same non-zero scalar recovers it. */
  lemma DivideUndoesMultiply(v: Vector, s: real)
    requires s != 0.0
    ensures Divide(Multiply(v, s), s) == Ok(v)
  {
    ScaleRoundTrip(v, s, 1.0 / s);
  }

  /** Scaling by `s` scales the magnitude by `|s|`. */
  lemma MagnitudeOfMultiply(v: Vector, s: real, sqrt: real -> real)
    requires Roots.IsSqrt(sqrt)
    ensures Magnitude(Multiply(v, s), sqrt) == (if s < 0.0 then -s else s) * Magnitude(v, sqrt)
  {
    var w := Multiply(v, s);
    var x := SumSq(v.vals);
    assert SumSq(w.vals) == s * s * x by {
      forall i | 0 <= i < |v.vals|
        ensures w.vals[i] == s * v.vals[i]
      {
      }
      SumSqScale(v.vals, w.vals, s);
    }
    assert sqrt(s * s * x) == (if s < 0.0 then -s else s) * sqrt(x) by {
      SumSqNonNegative(v.vals);
      Roots.SqrtScale(sqrt, s, x);
    }
  }

  /** A normalised vector dotted with the original gives the original's magnitude. */
  lemma NormaliseDotSelf(v: Vector, sqrt: real -> real)
    requires Roots.IsSqrt(sqrt)
    requires Normalise(v, sqrt).Ok?
    ensures Dot(Normalise(v, sqrt).value, v) == Magnitude(v, sqrt)
  {
    var u := Normalise(v, sqrt).value;
    MagnitudeFacts(v, sqrt);
    if |v.vals| > 0 {
      ScaledCopyDot(v, u, sqrt);
    }
  }

  /** If `u` scaled by `|v|` is `v`, then `u . v == |v|`. */
  lemma ScaledCopyDot(v: Vector, u: Vector, sqrt: real -> real)
    requires Roots.IsSqrt(sqrt)
    requires Magnitude(v, sqrt) != 0.0
    requires Multiply(u, Magnitude(v, sqrt)) == v
    ensures Dot(u, v) == Magnitude(v, sqrt)
  {
    var m := Magnitude(v, sqrt);
    var d, e := Dot(u, v), Dot(v, v);
    assert e == m * d by {
      DotScale(u, v, m);
    }
    assert e == m * m by {
      MagnitudeSquared(v, sqrt);
    }
    CancelFactor(m, d, e);
  }

  /**
   * Cancels a non-zero factor. Stated on plain names: inside the lemma above,
   * with the vectors in scope, the solver does not find this step.
   */
  lemma CancelFactor(m: real, d: real, e: real)
    requires m != 0.0 && e == m * d && e == m * m
    ensures d == m
  {
  }

  /** A unit vector normalises to itself. */
  lemma NormaliseIdempotent(v: Vector, sqrt: real -> real)
    requires Roots.IsSqrt(sqrt)
    requires Normalise(v, sqrt).Ok?
    ensures Normalise(Normalise(v, sqrt).value, sqrt) == Normalise(v, sqrt)
  {
    var u := Normalise(v, sqrt).value;
    if |v.vals| > 0 {
      var w := Normalise(u, sqrt);
      assert Magnitude(u, sqrt) == 1.0;
      MagnitudeFacts(u, sqrt);
      assert w.value.vals == u.vals;
    }
  }

  // Properties of cross

  /** Swapping the operands negates the cross product. */
  lemma CrossAnticommutative(a: Vector, b: Vector)
    requires |a.vals| >= 3 && |b.vals| >= 3
    ensures Cross(a, b).value == Multiply(Cross(b, a).value, -1.0)
  {
    assert Cross(a, b).value.vals == Multiply(Cross(b, a).value, -1.0).vals;
  }

  /**
   * Lagrange's identity: the squared length of `a x b` is
   * `|a|^2 |b|^2 - (a . b)^2`, so the product vanishes only for parallel operands.
   */
  lemma CrossLagrange(a: Vector, b: Vector)
    requires |a.vals| == 3 && |b.vals| == 3
    ensures var c := Cross(a, b).value;
      Dot(c, c) == Dot(a, a) * Dot(b, b) - Dot(a, b) * Dot(a, b)
  {
    var c := Cross(a, b).value;
    var x, y := a.vals, b.vals;
    DotWithTriple(c, c);
    DotWithTriple(a, a);
    DotWithTriple(b, b);
    DotWithTriple(a, b);
    Lagrange3(x[0], x[1], x[2], y[0], y[1], y[2]);
  }

  lemma Lagrange3(x0: real, x1: real, x2: real, y0: real, y1: real, y2: real)
    ensures var c0, c1, c2 := x1 * y2 - x2 * y1, x2 * y0 - x0 * y2, x0 * y1 - x1 * y0;
      c0 * c0 + c1 * c1 + c2 * c2
        == (x0 * x0 + x1 * x1 + x2 * x2) * (y0 * y0 + y1 * y1 + y2 * y2)
           - (x0 * y0 + x1 * y1 + x2 * y2) * (x0 * y0 + x1 * y1 + x2 * y2)
  {
  }

  /** The determinant of the rows `a`, `b`, `c`, expanded along the first row. */
  function Det(a: Vector, b: Vector, c: Vector): real
    requires |a.vals| >= 3 && |b.vals| >= 3 && |c.vals| >= 3
  {
    var x, y, z := a.vals, b.vals, c.vals;
    x[0] * (y[1] * z[2] - y[2] * z[1])
      - x[1] * (y[0] * z[2] - y[2] * z[0])
      + x[2] * (y[0] * z[1] - y[1] * z[0])
  }

  /**
   * `a`, `b`, `a x b` form a right-handed triple: their determinant is the
   * squared length of the product, never negative. With `b x a` in third place
   * it would be the negation.
   */
  lemma CrossRightHanded(a: Vector, b: Vector)
    requires |a.vals| >= 3 && |b.vals| >= 3
    ensures var c := Cross(a, b).value;
      Det(a, b, c) == Dot(c, c) && Det(a, b, c) >= 0.0
  {
    var c := Cross(a, b).value;
    var x, y, z := a.vals, b.vals, c.vals;
    DotWithTriple(c, c);
    TripleOfCross(x[0], x[1], x[2], y[0], y[1], y[2], z[0], z[1], z[2]);
  }

  /** The triple product with the cross product in third place is its sum of squares. */
  lemma TripleOfCross(x0: real, x1: real, x2: real, y0: real, y1: real, y2: real, z0: real, z1: real, z2: real)
    requires z0 == x1 * y2 - x2 * y1 && z1 == x2 * y0 - x0 * y2 && z2 == x0 * y1 - x1 * y0
    ensures x0 * (y1 * z2 - y2 * z1) - x1 * (y0 * z2 - y2 * z0) + x2 * (y0 * z1 - y1 * z0)
      == z0 * z0 + z1 * z1 + z2 * z2
    ensures z0 * z0 + z1 * z1 + z2 * z2 >= 0.0
  {
    SquareNonNegative(z0, z0 * z0);
    SquareNonNegative(z1, z1 * z1);
    SquareNonNegative(z2, z2 * z2);
  }

  /** Components past the third are ignored: the product depends on the first three of each operand only. */
  lemma CrossReadsFirstThree(a: Vector, b: Vector)
    requires |a.vals| >= 3 && |b.vals| >= 3
    ensures Cross(a, b) == Cross(Vector(a.vals[..3]), Vector(b.vals[..3]))
  {
    var x, y := a.vals, b.vals;
    var c := Vector([x[1] * y[2] - x[2] * y[1], x[2] * y[0] - x[0] * y[2], x[0] * y[1] - x[1] * y[0]]);
    var a3, b3 := Vector(x[..3]), Vector(y[..3]);
    assert a3.vals[0] == x[0] && a3.vals[1] == x[1] && a3.vals[2] == x[2];
    assert b3.vals[0] == y[0] && b3.vals[1] == y[1] && b3.vals[2] == y[2];
    var r, r3 := Cross(a, b).value.vals, Cross(a3, b3).value.vals;
    assert r[0] == c.vals[0] == r3[0];
    assert r[1] == c.vals[1] == r3[1];
    assert r[2] == c.vals[2] == r3[2];
    assert r == r3;
  }

  /** The standard basis: `e1 x e2 == e3`. */
  lemma CrossOfBasis()
    ensures Cross(Vector([1.0, 0.0, 0.0]), Vector([0.0, 1.0, 0.0])) == Ok(Vector([0.0, 0.0, 1.0]))
  {
  }

  lemma CrossSelfIsZero(a: Vector)
    requires |a.vals| >= 3
    ensures AllZero(Cross(a, a).value.vals)
  {
  }
}
