/**
 * Python's built-in `sum` over reals, as used by `Vector.magnitude`,
 * `Vector.dot` and `Ray.magnitude`: a left-to-right fold starting from 0.
 */
module Sums {

  function Sum(xs: seq<real>): real
    decreases |xs|
  {
    if |xs| == 0 then 0.0 else Sum(xs[..|xs| - 1]) + xs[|xs| - 1]
  }

  /** The squares of the components, `v*v for v in xs`. */
  function Squares(xs: seq<real>): (r: seq<real>)
    ensures |r| == |xs|
  {
    seq(|xs|, i requires 0 <= i < |xs| => xs[i] * xs[i])
  }

  /** The quantity under the root in both magnitude functions. */
  function SumSq(xs: seq<real>): real {
    Sum(Squares(xs))
  }

  ghost predicate AllZero(xs: seq<real>) {
    forall i :: 0 <= i < |xs| ==> xs[i] == 0.0
  }

  lemma SumOfThree(xs: seq<real>)
    requires |xs| == 3
    ensures Sum(xs) == xs[0] + xs[1] + xs[2]
  {
    var two, one := xs[..2], xs[..1];
    assert two[..1] == one && one[..0] == [];
    assert Sum(one) == xs[0];
    assert Sum(two) == Sum(one) + xs[1];
    assert Sum(xs) == Sum(two) + xs[2];
  }

  /** A sum of non-negative terms is non-negative. */
  lemma {:induction false} SumNonNegative(xs: seq<real>)
    requires forall i :: 0 <= i < |xs| ==> xs[i] >= 0.0
    ensures Sum(xs) >= 0.0
  {
    if |xs| > 0 {
      SumNonNegative(xs[..|xs| - 1]);
    }
  }

  /** A sum of non-negative terms vanishes exactly when every term does. */
  lemma {:induction false} SumZeroIff(xs: seq<real>)
    requires forall i :: 0 <= i < |xs| ==> xs[i] >= 0.0
    ensures Sum(xs) == 0.0 <==> AllZero(xs)
  {
    if |xs| > 0 {
      var init := xs[..|xs| - 1];
      SumZeroIff(init);
      SumNonNegative(init);
      if AllZero(xs) {
        assert AllZero(init);
      }
    }
  }

  /** Scaling every term scales the sum. */
  lemma {:induction false} SumScale(xs: seq<real>, ys: seq<real>, c: real)
    requires |ys| == |xs|
    requires forall i :: 0 <= i < |xs| ==> ys[i] == c * xs[i]
    ensures Sum(ys) == c * Sum(xs)
  {
    if |xs| > 0 {
      SumScale(xs[..|xs| - 1], ys[..|ys| - 1], c);
    }
  }

  /** Adding two sequences of terms termwise adds their sums. */
  lemma {:induction false} SumAdd(xs: seq<real>, ys: seq<real>, zs: seq<real>)
    requires |xs| == |ys| == |zs|
    requires forall i :: 0 <= i < |zs| ==> zs[i] == xs[i] + ys[i]
    ensures Sum(zs) == Sum(xs) + Sum(ys)
  {
    if |zs| > 0 {
      SumAdd(xs[..|xs| - 1], ys[..|ys| - 1], zs[..|zs| - 1]);
    }
  }

  /*
   * Sign facts about a square `p == x * x`, stated on the name `p` and split
   * into small steps: the solver handles each step but not their combination.
   */
  lemma SquareNonNegative(x: real, p: real)
    requires p == x * x
    ensures p >= 0.0
  {
    if x < 0.0 {
      assert p >= 0.0;
    }
  }

  lemma SquareNonZero(x: real, p: real)
    requires p == x * x && x != 0.0
    ensures p != 0.0
  {
    if x > 0.0 {
      PositiveProduct(x, x, p);
    } else {
      PositiveProduct(-x, -x, p);
    }
  }

  /** Stated on the name `p`: asserting `x * x > 0.0` in place is not enough for the solver. */
  lemma PositiveProduct(a: real, b: real, p: real)
    requires a > 0.0 && b > 0.0 && p == a * b
    ensures p > 0.0
  {
  }

  lemma SquareZeroIff(x: real, p: real)
    requires p == x * x
    ensures p >= 0.0
    ensures p == 0.0 <==> x == 0.0
  {
    SquareNonNegative(x, p);
    if x != 0.0 {
      SquareNonZero(x, p);
    }
  }

  lemma SumSqNonNegative(xs: seq<real>)
    ensures SumSq(xs) >= 0.0
  {
    var sq := Squares(xs);
    forall i | 0 <= i < |sq|
      ensures sq[i] >= 0.0
    {
      SquareNonNegative(xs[i], sq[i]);
    }
    SumNonNegative(sq);
  }

  /** The sum of squares vanishes exactly on the zero vector. */
  lemma SumSqZeroIff(xs: seq<real>)
    ensures SumSq(xs) == 0.0 <==> AllZero(xs)
  {
    var sq := Squares(xs);
    forall i | 0 <= i < |sq|
      ensures sq[i] >= 0.0
      ensures sq[i] == 0.0 <==> xs[i] == 0.0
    {
      SquareZeroIff(xs[i], sq[i]);
    }
    SumZeroIff(sq);
  }

  /** Scaling a vector by `c` scales its sum of squares by `c*c`. */
  lemma SumSqScale(xs: seq<real>, ys: seq<real>, c: real)
    requires |ys| == |xs|
    requires forall i :: 0 <= i < |xs| ==> ys[i] == c * xs[i]
    ensures SumSq(ys) == c * c * SumSq(xs)
  {
    var sx, sy := Squares(xs), Squares(ys);
    forall i | 0 <= i < |sx|
      ensures sy[i] == (c * c) * sx[i]
    {
      var x := xs[i];
      assert sy[i] == (c * x) * (c * x) == (c * c) * (x * x);
    }
    SumScale(sx, sy, c * c);
  }

  /** Extending a prefix by one component adds that component's square. */
  lemma SumSqPrefix(xs: seq<real>, i: int)
    requires 0 <= i < |xs|
    ensures SumSq(xs[..i + 1]) == SumSq(xs[..i]) + xs[i] * xs[i]
  {
    var longer, shorter := Squares(xs[..i + 1]), Squares(xs[..i]);
    forall j | 0 <= j < i
      ensures longer[j] == shorter[j]
    {
    }
    assert longer[..i] == shorter;
    assert longer[i] == xs[i] * xs[i];
  }
}
