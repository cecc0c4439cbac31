/**
 * The `Ray` class of raytracer.py. A ray keeps the point it starts from and
 * the unit direction from its second point towards its first. It uses its own
 * `magnitude` and `normalise` on plain lists rather than the `Vector` class;
 * both are proved to agree with the `Vector` versions.
 */
module Rays {
  import opened Outcomes
  import opened Sums
  import Roots
  import Vectors

  /** The stored back-reference to the scene is not modelled: nothing reads it. */
  datatype Ray = Ray(position: seq<real>, delta: seq<real>)

  /** `Ray.magnitude`: sums the squares by index, then takes the root. */
  method Magnitude(vector: seq<real>, sqrt: real -> real) returns (m: real)
    requires Roots.IsSqrt(sqrt)
    ensures m == Vectors.Magnitude(Vectors.Vector(vector), sqrt)
    ensures m >= 0.0
    ensures m == 0.0 <==> AllZero(vector)
  {
    var total := 0.0;
    var i := 0;
    while i < |vector|
      invariant 0 <= i <= |vector|
      invariant total == SumSq(vector[..i])
    {
      SumSqPrefix(vector, i);
      total := total + vector[i] * vector[i];
      i := i + 1;
    }
    assert vector[..i] == vector;
    m := sqrt(total);
    Vectors.MagnitudeFacts(Vectors.Vector(vector), sqrt);
  }

  /**
   * `Ray.normalise`: the magnitude is taken once, then every component is
   * divided by it; the first division by a zero magnitude raises.
   */
  method Normalise(vector: seq<real>, sqrt: real -> real) returns (r: Result<seq<real>>)
    requires Roots.IsSqrt(sqrt)
    ensures r.Err? <==> |vector| > 0 && AllZero(vector)
    ensures r.Err? ==> r.error == ZeroDivision
    ensures r.Ok? ==> Vectors.Normalise(Vectors.Vector(vector), sqrt) == Ok(Vectors.Vector(r.value))
  {
    var m := Magnitude(vector, sqrt);
    var out: seq<real> := [];
    var i := 0;
    while i < |vector|
      invariant 0 <= i <= |vector|
      invariant i > 0 ==> m != 0.0
      invariant |out| == i
      invariant forall j :: 0 <= j < i ==> out[j] == vector[j] / m
    {
      if m == 0.0 {
        return Err(ZeroDivision);
      }
      out := out + [vector[i] / m];
      i := i + 1;
    }
    r := Ok(out);
    if |vector| > 0 {
      assert Vectors.Normalise(Vectors.Vector(vector), sqrt).value.vals == out;
    }
  }

  /** How far apart two points are over the components `zip` pairs up. */
  function Distance(pointA: seq<real>, pointB: seq<real>, sqrt: real -> real): (r: real)
    ensures Roots.IsSqrt(sqrt) ==> r >= 0.0
  {
    Vectors.Magnitude(Vectors.Subtract(Vectors.Vector(pointA), Vectors.Vector(pointB)), sqrt)
  }

  /**
   * `Ray(scene, point_a, point_b)`: starts at `point_a`, and points along the
   * normalised difference `point_a - point_b`, taken over `zip`. Two points
   * that agree on their common components make the normalisation divide by
   * zero.
   */
  method New(pointA: seq<real>, pointB: seq<real>, sqrt: real -> real) returns (r: Result<Ray>)
    requires Roots.IsSqrt(sqrt)
    ensures var n := Vectors.Min(|pointA|, |pointB|);
      r.Err? <==> n > 0 && pointA[..n] == pointB[..n]
    ensures r.Err? ==> r.error == ZeroDivision
    ensures r.Ok? ==> r.value.position == pointA
    ensures r.Ok? ==> |r.value.delta| == Vectors.Min(|pointA|, |pointB|)
    ensures r.Ok? ==>
      Vectors.Multiply(Vectors.Vector(r.value.delta), Distance(pointA, pointB, sqrt))
        == Vectors.Subtract(Vectors.Vector(pointA), Vectors.Vector(pointB))
    ensures r.Ok? && |r.value.delta| > 0 ==>
      Distance(pointA, pointB, sqrt) > 0.0 && Vectors.Magnitude(Vectors.Vector(r.value.delta), sqrt) == 1.0
  {
    var diff := Vectors.Subtract(Vectors.Vector(pointA), Vectors.Vector(pointB));
    Vectors.SubtractZeroIff(Vectors.Vector(pointA), Vectors.Vector(pointB));
    Vectors.MagnitudeFacts(diff, sqrt);
    var delta := Normalise(diff.vals, sqrt);
    if delta.Err? {
      return Err(delta.error);
    }
    r := Ok(Ray(pointA, delta.value));
  }
}
