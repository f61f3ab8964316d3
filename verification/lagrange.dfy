/**
  Lagrange interpolation in coefficient-expansion form.

  For sample i the numerator of the basis polynomial L_i starts as the
  constant 1 and is multiplied by (x - x_j) for every j != i, in increasing
  order of j; the denominator is the product of (x_i - x_j) over the same j.
  The result is the sum over i of y_i * numerator_i / denominator_i,
  accumulated slot by slot into a coefficient vector of length n.
 */
module Lagrange {
  import opened Poly

  datatype Point = Point(x: real, y: real)

  /** No two samples share an x-coordinate. */
  predicate Distinct(ps: seq<Point>)
  {
    forall i, j :: 0 <= i < j < |ps| ==> ps[i].x != ps[j].x
  }

  /** The set of x-coordinates, as built by collecting them into a Set. */
  function XSet(ps: seq<Point>): set<real>
  {
    set i | 0 <= i < |ps| :: ps[i].x
  }

  lemma {:induction false} XSetSnoc(ps: seq<Point>)
    requires |ps| > 0
    ensures XSet(ps) == XSet(ps[..|ps| - 1]) + {ps[|ps| - 1].x}
  {
    var init := ps[..|ps| - 1];
    forall v | v in XSet(ps)
      ensures v in XSet(init) + {ps[|ps| - 1].x}
    {
      var i :| 0 <= i < |ps| && ps[i].x == v;
      if i < |ps| - 1 {
        assert init[i].x == v;
      }
    }
    forall v | v in XSet(init)
      ensures v in XSet(ps)
    {
      var i :| 0 <= i < |init| && init[i].x == v;
      assert ps[i].x == v;
    }
  }

  lemma {:induction false} XSetBound(ps: seq<Point>)
    ensures |XSet(ps)| <= |ps|
  {
    if |ps| > 0 {
      XSetSnoc(ps);
      XSetBound(ps[..|ps| - 1]);
    }
  }

  /**
    Collecting the x-coordinates into a set loses nothing exactly when they
    are pairwise distinct: this is the duplicate test of point collection.
   */
  lemma {:induction false} DistinctIffNoCollapse(ps: seq<Point>)
    ensures |XSet(ps)| == |ps| <==> Distinct(ps)
  {
    if |ps| > 0 {
      var init := ps[..|ps| - 1];
      var last := ps[|ps| - 1].x;
      XSetSnoc(ps);
      XSetBound(init);
      DistinctIffNoCollapse(init);
      if Distinct(ps) {
        assert Distinct(init) by {
          forall i, j | 0 <= i < j < |init|
            ensures init[i].x != init[j].x
          {
            assert init[i] == ps[i] && init[j] == ps[j];
          }
        }
        forall m | 0 <= m < |init|
          ensures init[m].x != last
        {
          assert init[m] == ps[m];
        }
        assert last !in XSet(init);
      } else {
        var i, j :| 0 <= i < j < |ps| && ps[i].x == ps[j].x;
        if j < |ps| - 1 {
          assert init[i].x == init[j].x;
          assert !Distinct(init);
        } else {
          assert init[i].x == last;
          assert last in XSet(init);
        }
      }
    }
  }

  /** The product of (t - x_j) over j < bound, j != i: the value the numerator should have at t. */
  function Product(ps: seq<Point>, i: nat, bound: nat, t: real): real
    requires i < |ps| && bound <= |ps|
  {
    if bound == 0 then 1.0
    else if bound - 1 == i then Product(ps, i, bound - 1, t)
    else (t - ps[bound - 1].x) * Product(ps, i, bound - 1, t)
  }

  /** The numerator coefficients of L_i after the factors j < bound have been multiplied in. */
  function Numerator(ps: seq<Point>, i: nat, bound: nat): (r: seq<real>)
    requires i < |ps| && bound <= |ps|
    ensures |r| == if i < bound then bound else bound + 1
  {
    if bound == 0 then [1.0]
    else if bound - 1 == i then Numerator(ps, i, bound - 1)
    else MulLinear(Numerator(ps, i, bound - 1), ps[bound - 1].x)
  }

  /** The scalar denominator of L_i after the factors j < bound have been multiplied in. */
  function Denominator(ps: seq<Point>, i: nat, bound: nat): (r: real)
    requires i < |ps| && bound <= |ps|
    ensures (forall j :: 0 <= j < bound && j != i ==> ps[j].x != ps[i].x) ==> r != 0.0
  {
    if bound == 0 then 1.0
    else if bound - 1 == i then Denominator(ps, i, bound - 1)
    else Denominator(ps, i, bound - 1) * (ps[i].x - ps[bound - 1].x)
  }

  /** The expanded numerator is monic: its leading coefficient is 1. */
  lemma {:induction false} NumeratorMonic(ps: seq<Point>, i: nat, bound: nat)
    requires i < |ps| && bound <= |ps|
    ensures var r := Numerator(ps, i, bound); r[|r| - 1] == 1.0
  {
    if bound > 0 {
      NumeratorMonic(ps, i, bound - 1);
    }
  }

  lemma {:induction false} NumeratorStep(ps: seq<Point>, i: nat, bound: nat, t: real)
    requires i < |ps| && 0 < bound <= |ps| && bound - 1 != i
    requires Horner(Numerator(ps, i, bound - 1), t) == Product(ps, i, bound - 1, t)
    ensures Horner(Numerator(ps, i, bound), t) == Product(ps, i, bound, t)
  {
    NumeratorUnfold(ps, i, bound);
    ProductUnfold(ps, i, bound, t);
    HornerMulLinearMul(Numerator(ps, i, bound - 1), ps[bound - 1].x, t);
  }

  lemma {:induction false} NumeratorUnfold(ps: seq<Point>, i: nat, bound: nat)
    requires i < |ps| && 0 < bound <= |ps| && bound - 1 != i
    ensures Numerator(ps, i, bound) == MulLinear(Numerator(ps, i, bound - 1), ps[bound - 1].x)
  {
  }

  lemma {:induction false} ProductUnfold(ps: seq<Point>, i: nat, bound: nat, t: real)
    requires i < |ps| && 0 < bound <= |ps| && bound - 1 != i
    ensures Product(ps, i, bound, t) == Mul(t - ps[bound - 1].x, Product(ps, i, bound - 1, t))
  {
  }


  /** The expanded numerator evaluates, at every t, to the product of its linear factors. */
  lemma {:induction false} NumeratorHorner(ps: seq<Point>, i: nat, bound: nat, t: real)
    requires i < |ps| && bound <= |ps|
    ensures Horner(Numerator(ps, i, bound), t) == Product(ps, i, bound, t)
  {
    if bound == 0 {
      assert [1.0][1..] == [];
      assert Horner([1.0], t) == 1.0 + t * Horner([], t);
    } else if bound - 1 == i {
      NumeratorHorner(ps, i, bound - 1, t);
      assert Numerator(ps, i, bound) == Numerator(ps, i, bound - 1);
    } else {
      NumeratorHorner(ps, i, bound - 1, t);
      NumeratorStep(ps, i, bound, t);
    }
  }

  /** The expanded numerator evaluates, at every t, to the product of its linear factors. */
  lemma {:induction false} NumeratorEval(ps: seq<Point>, i: nat, bound: nat, t: real)
    requires i < |ps| && bound <= |ps|
    ensures Eval(Numerator(ps, i, bound), t) == Product(ps, i, bound, t)
  {
    NumeratorHorner(ps, i, bound, t);
    EvalIsHorner(Numerator(ps, i, bound), t);
  }

  /** The scalar denominator is the product of the numerator's factors taken at x_i. */
  lemma {:induction false} DenominatorIsProduct(ps: seq<Point>, i: nat, bound: nat)
    requires i < |ps| && bound <= |ps|
    ensures Denominator(ps, i, bound) == Product(ps, i, bound, ps[i].x)
  {
    if bound > 0 && bound - 1 != i {
      var f := ps[i].x - ps[bound - 1].x;
      DenominatorIsProduct(ps, i, bound - 1);
      MulCongruence(f, Denominator(ps, i, bound - 1), Product(ps, i, bound - 1, ps[i].x));
    } else if bound > 0 {
      DenominatorIsProduct(ps, i, bound - 1);
    }
  }

  /** The product vanishes at every other node whose factor has been taken. */
  lemma {:induction false} ProductVanishes(ps: seq<Point>, i: nat, bound: nat, k: nat)
    requires i < |ps| && bound <= |ps| && k < bound && k != i
    ensures Product(ps, i, bound, ps[k].x) == 0.0
  {
    if bound - 1 != k {
      ProductVanishes(ps, i, bound - 1, k);
    }
  }

  /** With distinct x-coordinates no factor (x_i - x_j) is zero. */
  lemma {:induction false} ProductNonzero(ps: seq<Point>, i: nat, bound: nat)
    requires i < |ps| && bound <= |ps| && Distinct(ps)
    ensures Product(ps, i, bound, ps[i].x) != 0.0
  {
    if bound > 0 {
      ProductNonzero(ps, i, bound - 1);
      if bound - 1 != i {
        var f := ps[i].x - ps[bound - 1].x;
        assert f != 0.0;
        MulNonzero(f, Product(ps, i, bound - 1, ps[i].x));
        assert Product(ps, i, bound, ps[i].x) == f * Product(ps, i, bound - 1, ps[i].x);
      }
    }
  }

  /** The denominator of a completed basis polynomial is nonzero when the samples are distinct. */
  lemma {:induction false} DenominatorNonzero(ps: seq<Point>, i: nat)
    requires i < |ps| && Distinct(ps)
    ensures Denominator(ps, i, |ps|) != 0.0
  {
    DenominatorIsProduct(ps, i, |ps|);
    ProductNonzero(ps, i, |ps|);
  }

  /**
    The completed numerator of L_i vanishes at every other sample and equals
    the (nonzero) denominator at x_i.
   */
  lemma {:induction false} BasisAtNodes(ps: seq<Point>, i: nat, k: nat)
    requires i < |ps| && k < |ps| && Distinct(ps)
    ensures Eval(Numerator(ps, i, |ps|), ps[k].x) == if k == i then Denominator(ps, i, |ps|) else 0.0
    ensures Denominator(ps, i, |ps|) != 0.0
  {
    NumeratorEval(ps, i, |ps|, ps[k].x);
    DenominatorIsProduct(ps, i, |ps|);
    DenominatorNonzero(ps, i);
    if k != i {
      ProductVanishes(ps, i, |ps|, k);
    }
  }

  /** The contribution y_i * numerator_i / denominator_i, slot by slot. */
  function Weighted(ps: seq<Point>, i: nat): (r: seq<real>)
    requires i < |ps| && Distinct(ps)
    ensures |r| == |ps|
  {
    DenominatorNonzero(ps, i);
    Weigh(ps[i].y, Numerator(ps, i, |ps|), Denominator(ps, i, |ps|))
  }

  /** The weighted contribution is y_i at x_i and 0 at every other sample. */
  lemma {:induction false} WeightedAtNodes(ps: seq<Point>, i: nat, k: nat)
    requires i < |ps| && k < |ps| && Distinct(ps)
    ensures Horner(Weighted(ps, i), ps[k].x) == if k == i then ps[k].y else 0.0
  {
    var numer := Numerator(ps, i, |ps|);
    var denom := Denominator(ps, i, |ps|);
    var y := ps[i].y;
    var t := ps[k].x;
    NumeratorHorner(ps, i, |ps|, t);
    DenominatorIsProduct(ps, i, |ps|);
    DenominatorNonzero(ps, i);
    HornerWeigh(y, numer, denom, t);
    var e := Horner(numer, t);
    if k == i {
      DivCancel(y, denom);
      MulCongruence(y / denom, e, denom);
    } else {
      ProductVanishes(ps, i, |ps|, k);
      MulCongruence(y / denom, e, 0.0);
    }
  }

  /** The weighted contributions of all samples, in sample order. */
  function Contributions(ps: seq<Point>): (ws: seq<seq<real>>)
    requires Distinct(ps)
    ensures |ws| == |ps|
  {
    seq(|ps|, i requires 0 <= i < |ps| => Weighted(ps, i))
  }

  /**
    The interpolating coefficient vector. Every weighted numerator already
    has n slots, so accumulation never has to extend the vector and the
    result has exactly one slot per sample.
   */
  function Interpolate(ps: seq<Point>): (r: seq<real>)
    requires Distinct(ps)
    ensures |r| == |ps|
  {
    Sum(Contributions(ps), |ps|)
  }

  /** At every sample's x the interpolating polynomial takes that sample's y. */
  lemma {:induction false} InterpolateAtNode(ps: seq<Point>, k: nat)
    requires k < |ps| && Distinct(ps)
    ensures Horner(Interpolate(ps), ps[k].x) == ps[k].y
  {
    var ws := Contributions(ps);
    forall i | 0 <= i < |ws|
      ensures Horner(ws[i], ps[k].x) == if i == k then ps[k].y else 0.0
    {
      WeightedAtNodes(ps, i, k);
    }
    HornerSumSingle(ws, |ps|, ps[k].x, k, ps[k].y);
  }

  /**
    The slot-extending branch of the accumulation is never taken: before
    sample i is added the vector already has n slots, and the contribution
    of sample i has exactly n.
   */
  lemma {:induction false} AccumulationNeverExtends(ps: seq<Point>, i: nat)
    requires i < |ps| && Distinct(ps)
    ensures |Weighted(ps, i)| == |Sum(Contributions(ps)[..i], |ps|)| == |ps|
  {
    var ws := Contributions(ps)[..i];
    forall m | 0 <= m < |ws|
      ensures |ws[m]| <= |ps|
    {
      assert ws[m] == Weighted(ps, m);
    }
  }

  /** Interpolation is exact over the reals: the polynomial passes through every sample. */
  lemma {:induction false} InterpolationExact(ps: seq<Point>)
    requires Distinct(ps)
    ensures forall k :: 0 <= k < |ps| ==> Eval(Interpolate(ps), ps[k].x) == ps[k].y
  {
    forall k | 0 <= k < |ps|
      ensures Eval(Interpolate(ps), ps[k].x) == ps[k].y
    {
      InterpolateAtNode(ps, k);
      EvalIsHorner(Interpolate(ps), ps[k].x);
    }
  }

  /**
    The inner loop over j for sample i: the numerator starts as [1] and the
    denominator as 1, and every j != i multiplies in (x - x_j) and (x_i - x_j).
   */
  method BasisLoop(ps: seq<Point>, i: nat) returns (numer: seq<real>, denominator: real)
    requires i < |ps|
    ensures numer == Numerator(ps, i, |ps|)
    ensures denominator == Denominator(ps, i, |ps|)
  {
    numer := [1.0];
    denominator := 1.0;
    var j := 0;
    while j < |ps|
      invariant 0 <= j <= |ps|
      invariant numer == Numerator(ps, i, j)
      invariant denominator == Denominator(ps, i, j)
    {
      numer, denominator := BasisFactor(ps, i, j, numer, denominator);
      j := j + 1;
    }
  }

  /** One pass of the inner loop: factor j is multiplied in unless j is i itself. */
  method BasisFactor(ps: seq<Point>, i: nat, j: nat, numer: seq<real>, denominator: real)
    returns (numer': seq<real>, denominator': real)
    requires i < |ps| && j < |ps|
    requires numer == Numerator(ps, i, j) && denominator == Denominator(ps, i, j)
    ensures denominator' == Denominator(ps, i, j + 1)
    ensures numer' == Numerator(ps, i, j + 1)
  {
    if i == j {
      numer', denominator' := numer, denominator;
    } else {
      denominator' := denominator * (ps[i].x - ps[j].x);
      assert denominator' == Denominator(ps, i, j + 1);
      numer' := MulLinearLoop(numer, ps[j].x);
    }
  }

  /**
    The accumulation loop: for every slot k of the numerator, a slot past the
    end of the coefficients is first appended as 0, then slot k gains
    y * numer[k] / denominator.
   */
  method AddWeightedLoop(coefficients: seq<real>, y: real, numer: seq<real>, denominator: real)
    returns (result: seq<real>)
    requires denominator != 0.0
    ensures result == AddInto(coefficients, Weigh(y, numer, denominator))
  {
    ghost var term := Weigh(y, numer, denominator);
    ghost var target := AddInto(coefficients, term);
    result := coefficients;
    var k := 0;
    while k < |numer|
      invariant 0 <= k <= |numer|
      invariant |result| == Max(|coefficients|, k)
      invariant forall m :: 0 <= m < k ==> result[m] == target[m]
      invariant forall m :: k <= m < |result| ==> result[m] == coefficients[m]
    {
      WeighSlot(y, numer, denominator, k);
      if k >= |result| {
        result := result + [0.0];
      }
      result := result[k := result[k] + y * numer[k] / denominator];
      k := k + 1;
    }
  }

  /**
    The interpolator's outer loop: the coefficients start as n zeros and
    every sample adds its weighted basis numerator.
   */
  method LagrangeInterpolation(ps: seq<Point>) returns (coefficients: seq<real>)
    requires Distinct(ps)
    ensures coefficients == Interpolate(ps)
  {
    ghost var ws := Contributions(ps);
    coefficients := Zeros(|ps|);
    var i := 0;
    while i < |ps|
      invariant 0 <= i <= |ps|
      invariant coefficients == Sum(ws[..i], |ps|)
    {
      var numer, denominator := BasisLoop(ps, i);
      DenominatorNonzero(ps, i);
      coefficients := AddWeightedLoop(coefficients, ps[i].y, numer, denominator);
      assert ws[..i + 1][..i] == ws[..i];
      i := i + 1;
    }
    assert ws[..|ps|] == ws;
  }

  /** Two samples on the line y = 2x give the coefficients of 2x. */
  lemma {:induction false} TwoPointLinear()
    ensures Distinct([Point(0.0, 0.0), Point(2.0, 4.0)])
    ensures Interpolate([Point(0.0, 0.0), Point(2.0, 4.0)]) == [0.0, 2.0]
  {
    var ps := [Point(0.0, 0.0), Point(2.0, 4.0)];
    var c := Interpolate(ps);
    InterpolationExact(ps);
    EvalPair(c, 0.0);
    EvalPair(c, 2.0);
    assert c == [c[0], c[1]];
  }

  /** Three samples of x^2 + 1 give the coefficients 1, 0, 1. */
  lemma {:induction false} ThreePointQuadratic()
    ensures Distinct([Point(0.0, 1.0), Point(1.0, 2.0), Point(2.0, 5.0)])
    ensures Interpolate([Point(0.0, 1.0), Point(1.0, 2.0), Point(2.0, 5.0)]) == [1.0, 0.0, 1.0]
  {
    var ps := [Point(0.0, 1.0), Point(1.0, 2.0), Point(2.0, 5.0)];
    var c := Interpolate(ps);
    InterpolationExact(ps);
    EvalTriple(c, 0.0);
    EvalTriple(c, 1.0);
    EvalTriple(c, 2.0);
    assert c == [c[0], c[1], c[2]];
  }

  /** Two samples on the horizontal line y = 1 give the coefficients [1, 0]: the top slot is zero. */
  lemma {:induction false} TwoPointConstant()
    ensures Distinct([Point(0.0, 1.0), Point(1.0, 1.0)])
    ensures Interpolate([Point(0.0, 1.0), Point(1.0, 1.0)]) == [1.0, 0.0]
  {
    var ps := [Point(0.0, 1.0), Point(1.0, 1.0)];
    var c := Interpolate(ps);
    InterpolationExact(ps);
    EvalPair(c, 0.0);
    EvalPair(c, 1.0);
    assert c == [c[0], c[1]];
  }
}
