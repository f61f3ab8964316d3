/**
  Dense polynomials over the reals: a coefficient vector `c` stands for
  c[0] + c[1]*x + ... + c[|c|-1]*x^(|c|-1), lowest degree first.

  `Eval` is the power-sum evaluation performed by the evaluation loop of
  the calculator; `Horner` is the nested form it is proved equal to.
  `MulLinear` is one step of the basis-numerator expansion (multiplying by
  the linear factor (x - a)) and `AddInto` is the accumulation of one
  weighted basis polynomial into the running coefficient vector.
 */
module Poly {

  function Pow(x: real, i: nat): real
  {
    if i == 0 then 1.0 else x * Pow(x, i - 1)
  }

  /** Sum of c[i] * x^i, accumulated from index 0 upwards. */
  function Eval(c: seq<real>, x: real): (r: real)
    ensures x == 0.0 && |c| > 0 ==> r == c[0]
  {
    if |c| == 0 then 0.0 else Eval(c[..|c| - 1], x) + c[|c| - 1] * Pow(x, |c| - 1)
  }

  /** Horner's scheme: c[0] + x * (c[1] + x * (...)). */
  function Horner(c: seq<real>, x: real): real
  {
    if |c| == 0 then 0.0 else c[0] + x * Horner(c[1..], x)
  }

  function Max(a: nat, b: nat): nat
  {
    if a < b then b else a
  }

  function Zeros(n: nat): (r: seq<real>)
    ensures |r| == n && forall k :: 0 <= k < n ==> r[k] == 0.0
  {
    seq(n, _ => 0.0)
  }

  function Scale(k: real, p: seq<real>): (r: seq<real>)
    ensures |r| == |p|
  {
    seq(|p|, i requires 0 <= i < |p| => k * p[i])
  }

  /** Every slot multiplied by y and divided by d. */
  function Weigh(y: real, p: seq<real>, d: real): (r: seq<real>)
    requires d != 0.0
    ensures |r| == |p|
  {
    seq(|p|, k requires 0 <= k < |p| => y * p[k] / d)
  }

  /**
    Adds `term` into `acc` slot by slot; a slot of `term` beyond the end of
    `acc` first extends `acc` with a zero and then receives the term.
   */
  function AddInto(acc: seq<real>, term: seq<real>): (r: seq<real>)
    ensures |r| == Max(|acc|, |term|)
    ensures |term| <= |acc| ==> |r| == |acc|
  {
    seq(Max(|acc|, |term|), k requires 0 <= k < Max(|acc|, |term|) =>
      (if k < |acc| then acc[k] else 0.0) + (if k < |term| then term[k] else 0.0))
  }

  /**
    Multiplies the polynomial `p` by (x - a): slot k of the result receives
    p[k-1] from the shift and loses p[k] * a.
   */
  function MulLinear(p: seq<real>, a: real): (r: seq<real>)
    ensures |r| == |p| + 1
    ensures |p| > 0 ==> r[|p|] == p[|p| - 1]
  {
    seq(|p| + 1, k requires 0 <= k <= |p| =>
      (if k > 0 then p[k - 1] else 0.0) - (if k < |p| then p[k] * a else 0.0))
  }

  /**
    The product of two reals as a named term. Proofs that chain several
    products match them by congruence on Mul instead of by arithmetic.
   */
  function Mul(a: real, b: real): real
  {
    a * b
  }

  /** Multiplying equal reals by the same factor, on either side, gives equal products. */
  lemma {:induction false} MulCongruence(k: real, u: real, v: real)
    requires u == v
    ensures k * u == k * v && u * k == k * v
  {
  }

  /** A product of nonzero reals is nonzero. */
  lemma {:induction false} MulNonzero(a: real, b: real)
    requires a != 0.0 && b != 0.0
    ensures a * b != 0.0
  {
  }

  lemma {:induction false} DivMulSwap(y: real, n: real, d: real)
    requires d != 0.0
    ensures y * n / d == (y / d) * n
  {
  }

  lemma {:induction false} DivCancel(y: real, d: real)
    requires d != 0.0
    ensures (y / d) * d == y
  {
  }

  lemma {:induction false} HornerSnoc(c: seq<real>, a: real, x: real)
    ensures Horner(c + [a], x) == Horner(c, x) + a * Pow(x, |c|)
  {
    if |c| == 0 {
      assert (c + [a])[1..] == [];
    } else {
      assert (c + [a])[1..] == c[1..] + [a];
      HornerSnoc(c[1..], a, x);
      calc {
        Horner(c + [a], x);
        c[0] + x * (Horner(c[1..], x) + a * Pow(x, |c| - 1));
        c[0] + x * Horner(c[1..], x) + a * (x * Pow(x, |c| - 1));
        Horner(c, x) + a * Pow(x, |c|);
      }
    }
  }

  /** The power-sum evaluation and Horner's scheme agree on every vector and every x. */
  lemma {:induction false} EvalIsHorner(c: seq<real>, x: real)
    ensures Eval(c, x) == Horner(c, x)
  {
    if |c| > 0 {
      var init := c[..|c| - 1];
      EvalIsHorner(init, x);
      HornerSnoc(init, c[|c| - 1], x);
      assert init + [c[|c| - 1]] == c;
    }
  }

  lemma {:induction false} HornerZeros(n: nat, x: real)
    ensures Horner(Zeros(n), x) == 0.0
  {
    if n > 0 {
      assert Zeros(n)[1..] == Zeros(n - 1);
      HornerZeros(n - 1, x);
    }
  }

  /** The all-zero vector of any length evaluates to 0 everywhere. */
  lemma {:induction false} EvalZeros(n: nat, x: real)
    ensures Eval(Zeros(n), x) == 0.0
  {
    HornerZeros(n, x);
    EvalIsHorner(Zeros(n), x);
  }

  lemma {:induction false} HornerScale(k: real, p: seq<real>, x: real)
    ensures Horner(Scale(k, p), x) == k * Horner(p, x)
  {
    if |p| > 0 {
      forall i | 0 <= i < |p| - 1
        ensures Scale(k, p)[1..][i] == Scale(k, p[1..])[i]
      {
        assert Scale(k, p)[i + 1] == k * p[i + 1];
      }
      assert Scale(k, p)[1..] == Scale(k, p[1..]);
      HornerScale(k, p[1..], x);
    }
  }

  lemma {:induction false} WeighSlot(y: real, p: seq<real>, d: real, k: nat)
    requires d != 0.0 && k < |p|
    ensures Weigh(y, p, d)[k] == y * p[k] / d
  {
  }

  /** Weighing the coefficients weighs the value: slot-wise y * p[k] / d evaluates to (y / d) * p(x). */
  lemma {:induction false} HornerWeigh(y: real, p: seq<real>, d: real, x: real)
    requires d != 0.0
    ensures Horner(Weigh(y, p, d), x) == (y / d) * Horner(p, x)
  {
    var w := Weigh(y, p, d);
    var s := Scale(y / d, p);
    forall k | 0 <= k < |p|
      ensures w[k] == s[k]
    {
      DivMulSwap(y, p[k], d);
    }
    assert w == s;
    HornerScale(y / d, p, x);
  }

  lemma {:induction false} HornerAddInto(acc: seq<real>, term: seq<real>, x: real)
    ensures Horner(AddInto(acc, term), x) == Horner(acc, x) + Horner(term, x)
  {
    if |acc| == 0 {
      assert AddInto(acc, term) == term;
    } else if |term| == 0 {
      assert AddInto(acc, term) == acc;
    } else {
      assert AddInto(acc, term)[1..] == AddInto(acc[1..], term[1..]);
      HornerAddInto(acc[1..], term[1..], x);
    }
  }

  /** Accumulating a term into a vector adds the term's value to the vector's value. */
  lemma {:induction false} EvalAddInto(acc: seq<real>, term: seq<real>, x: real)
    ensures Eval(AddInto(acc, term), x) == Eval(acc, x) + Eval(term, x)
  {
    HornerAddInto(acc, term, x);
    EvalIsHorner(AddInto(acc, term), x);
    EvalIsHorner(acc, x);
    EvalIsHorner(term, x);
  }

  /**
    The vectors of `ws` added one after another, slot by slot, into n zero
    slots. When no vector is longer than n, neither is the sum.
   */
  function Sum(ws: seq<seq<real>>, n: nat): (r: seq<real>)
    ensures (forall i :: 0 <= i < |ws| ==> |ws[i]| <= n) ==> |r| == n
  {
    if |ws| == 0 then Zeros(n) else AddInto(Sum(ws[..|ws| - 1], n), ws[|ws| - 1])
  }

  /**
    If, at t, vector k of `ws` is worth y and every other vector is worth 0,
    then the sum is worth y at t (and 0 when there is no vector k).
   */
  lemma {:induction false} HornerSumSingle(ws: seq<seq<real>>, n: nat, t: real, k: nat, y: real)
    requires forall i :: 0 <= i < |ws| ==> Horner(ws[i], t) == if i == k then y else 0.0
    ensures Horner(Sum(ws, n), t) == if k < |ws| then y else 0.0
  {
    if |ws| == 0 {
      HornerZeros(n, t);
    } else {
      var init := ws[..|ws| - 1];
      forall i | 0 <= i < |init|
        ensures Horner(init[i], t) == if i == k then y else 0.0
      {
        assert init[i] == ws[i];
      }
      HornerSumSingle(init, n, t, k, y);
      HornerAddInto(Sum(init, n), ws[|ws| - 1], t);
    }
  }

  /** Multiplying by (x - a) is shifting up one degree and subtracting a times the original. */
  lemma {:induction false} MulLinearSplits(p: seq<real>, a: real)
    ensures MulLinear(p, a) == AddInto([0.0] + p, Scale(-a, p))
  {
    var lhs := MulLinear(p, a);
    var rhs := AddInto([0.0] + p, Scale(-a, p));
    forall k | 0 <= k <= |p|
      ensures lhs[k] == rhs[k]
    {
      if k < |p| {
        assert Scale(-a, p)[k] == -a * p[k];
      }
    }
  }

  lemma {:induction false} HornerShift(p: seq<real>, t: real)
    ensures Horner([0.0] + p, t) == Mul(t, Horner(p, t))
  {
    assert ([0.0] + p)[1..] == p;
  }

  lemma {:induction false} HornerScaled(k: real, p: seq<real>, t: real)
    ensures Horner(Scale(k, p), t) == Mul(k, Horner(p, t))
  {
    HornerScale(k, p, t);
  }

  lemma {:induction false} Distribute(t: real, a: real, h: real)
    ensures Mul(t, h) + Mul(-a, h) == Mul(t - a, h)
  {
  }

  lemma {:induction false} HornerMulLinearMul(p: seq<real>, a: real, t: real)
    ensures Horner(MulLinear(p, a), t) == Mul(t - a, Horner(p, t))
  {
    MulLinearSplits(p, a);
    HornerAddInto([0.0] + p, Scale(-a, p), t);
    HornerShift(p, t);
    HornerScaled(-a, p, t);
    Distribute(t, a, Horner(p, t));
  }

  /** One expansion step multiplies the polynomial's Horner value by (t - a) at every t. */
  lemma {:induction false} HornerMulLinear(p: seq<real>, a: real, t: real)
    ensures Horner(MulLinear(p, a), t) == (t - a) * Horner(p, t)
  {
    HornerMulLinearMul(p, a, t);
  }

  /** One expansion step multiplies the polynomial's value by (t - a) at every t. */
  lemma {:induction false} EvalMulLinear(p: seq<real>, a: real, t: real)
    ensures Eval(MulLinear(p, a), t) == (t - a) * Eval(p, t)
  {
    EvalMulLinearMul(p, a, t);
  }

  lemma {:induction false} EvalMulLinearMul(p: seq<real>, a: real, t: real)
    ensures Eval(MulLinear(p, a), t) == Mul(t - a, Eval(p, t))
  {
    HornerMulLinearMul(p, a, t);
    EvalIsHorner(MulLinear(p, a), t);
    EvalIsHorner(p, t);
  }

  /**
    The coefficient-array loop of one expansion step: a fresh zero array one
    slot longer than `p`, then for every k, slot k loses p[k] * a and slot
    k + 1 gains p[k].
   */
  method MulLinearLoop(p: seq<real>, a: real) returns (r: seq<real>)
    ensures r == MulLinear(p, a)
  {
    r := Zeros(|p| + 1);
    var k := 0;
    while k < |p|
      invariant 0 <= k <= |p|
      invariant |r| == |p| + 1
      invariant forall m :: 0 <= m < k ==> r[m] == MulLinear(p, a)[m]
      invariant r[k] == if k > 0 then p[k - 1] else 0.0
      invariant forall m :: k < m <= |p| ==> r[m] == 0.0
    {
      r := r[k := r[k] - p[k] * a];
      r := r[k + 1 := r[k + 1] + p[k]];
      k := k + 1;
    }
  }

  /** The evaluation loop: result accumulates c[i] * x^i for i = 0, 1, ...; it computes Horner's value. */
  method EvaluateLoop(c: seq<real>, x: real) returns (result: real)
    ensures result == Horner(c, x)
  {
    result := 0.0;
    var i := 0;
    while i < |c|
      invariant 0 <= i <= |c|
      invariant result == Eval(c[..i], x)
    {
      assert c[..i + 1][..i] == c[..i];
      result := result + c[i] * Pow(x, i);
      i := i + 1;
    }
    assert c[..|c|] == c;
    EvalIsHorner(c, x);
  }

  lemma {:induction false} EvalPair(c: seq<real>, x: real)
    requires |c| == 2
    ensures Eval(c, x) == c[0] + c[1] * x
  {
    EvalIsHorner(c, x);
    assert c[1..][1..] == [];
    assert Horner(c[1..], x) == c[1];
  }

  lemma {:induction false} EvalTriple(c: seq<real>, x: real)
    requires |c| == 3
    ensures Eval(c, x) == c[0] + c[1] * x + c[2] * (x * x)
  {
    EvalIsHorner(c, x);
    assert c[1..][1..][1..] == [];
    assert Horner(c[1..][1..], x) == c[2];
    assert Horner(c[1..], x) == c[1] + x * c[2];
  }

  /** The polynomial 2x evaluated at 3. */
  lemma {:induction false} EvalExample()
    ensures Eval([0.0, 2.0], 3.0) == 6.0
  {
    assert [0.0, 2.0][..1] == [0.0];
  }
}
