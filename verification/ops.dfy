/** The operator library: each operator's forward evaluation and its
    vector-Jacobian product (VJP), the only backward rule the traversal uses.
    The forward-mode tangent rule `Jvp` is the independent reference the VJPs
    are checked against: a VJP must be the adjoint of the derivative. */
module Ops {
  import Vectors

  type Vec = Vectors.Vec

  /** One constructor per concrete operator class. */
  datatype Op = Neg | Sum | Add | Sub | Mul | Div

  function Arity(op: Op): (r: nat) {
    match op
    case Neg | Sum => 1
    case Add | Sub | Mul | Div => 2
  }

  /** The operands can be combined: the right number of them, and for the
      binary elementwise operators, arrays of one length. */
  predicate ShapesAgree(op: Op, xs: seq<Vec>) {
    |xs| == Arity(op) && (Arity(op) == 2 ==> |xs[0]| == |xs[1]|)
  }

  /** Exact division needs every divisor nonzero. */
  predicate DivisorOk(op: Op, xs: seq<Vec>) {
    op == Div && |xs| == 2 ==> Vectors.NonZero(xs[1])
  }

  predicate Accepts(op: Op, xs: seq<Vec>) {
    ShapesAgree(op, xs) && DivisorOk(op, xs)
  }

  /** The length of the operator's result: `Sum` reduces to a scalar. */
  function OutLen(op: Op, xs: seq<Vec>): (r: nat)
    requires ShapesAgree(op, xs)
  {
    if op == Sum then 1 else |xs[0]|
  }

  /** Arrays that fit the operands: one per operand, of the same length. */
  predicate Fits(ds: seq<Vec>, xs: seq<Vec>) {
    |ds| == |xs| && forall k :: 0 <= k < |xs| ==> |ds[k]| == |xs[k]|
  }

  /** Forward evaluation (`f`). */
  function Forward(op: Op, xs: seq<Vec>): (r: Vec)
    requires Accepts(op, xs)
    ensures |r| == OutLen(op, xs)
  {
    match op
    case Neg => Vectors.Neg(xs[0])
    case Sum => [Vectors.Total(xs[0])]
    case Add => Vectors.Add(xs[0], xs[1])
    case Sub => Vectors.Sub(xs[0], xs[1])
    case Mul => Vectors.Mul(xs[0], xs[1])
    case Div => Vectors.Div(xs[0], xs[1])
  }

  /** Vector-Jacobian product (`vjp`): given the gradient `g` flowing into the
      result, one gradient per operand, each shaped like that operand. `Sum`
      broadcasts its scalar seed explicitly to the operand's length. */
  function Vjp(op: Op, g: Vec, xs: seq<Vec>): (r: seq<Vec>)
    requires Accepts(op, xs) && |g| == OutLen(op, xs)
    ensures Fits(r, xs)
  {
    match op
    case Neg => [Vectors.Neg(g)]
    case Sum => [Vectors.Fill(|xs[0]|, g[0])]
    case Add => [g, g]
    case Sub => [g, Vectors.Neg(g)]
    case Mul => [Vectors.Mul(g, xs[1]), Vectors.Mul(g, xs[0])]
    case Div =>
      var x1, x2 := xs[0], xs[1];
      [Vectors.Mul(g, Vectors.ScalarDiv(1.0, x2)),
       Vectors.Div(Vectors.Div(Vectors.Neg(Vectors.Mul(g, x1)), x2), x2)]
  }

  /** The product rule's tangent `d1 * x2 + x1 * d2`, elementwise. */
  function ProductTangent(x1: Vec, x2: Vec, d1: Vec, d2: Vec): (r: Vec)
    requires |x1| == |x2| == |d1| == |d2|
    ensures |r| == |x1|
  {
    Vectors.Add(Vectors.Mul(d1, x2), Vectors.Mul(x1, d2))
  }

  /** The quotient rule's numerator `d1 * x2 - x1 * d2`, elementwise. */
  function QuotientNumerator(x1: Vec, x2: Vec, d1: Vec, d2: Vec): (r: Vec)
    requires |x1| == |x2| == |d1| == |d2|
    ensures |r| == |x1|
  {
    Vectors.Sub(Vectors.Mul(d1, x2), Vectors.Mul(x1, d2))
  }

  /** Forward-mode tangent rule: the directional derivative of `Forward` at
      `xs` along the tangents `ds` (negation, sum, sum and difference rules,
      product rule, and the quotient rule with its denominator `x2 * x2`
      applied as two divisions by `x2`). */
  function Jvp(op: Op, xs: seq<Vec>, ds: seq<Vec>): (r: Vec)
    requires Accepts(op, xs) && Fits(ds, xs)
    ensures |r| == OutLen(op, xs)
  {
    match op
    case Neg => Vectors.Neg(ds[0])
    case Sum => [Vectors.Total(ds[0])]
    case Add => Vectors.Add(ds[0], ds[1])
    case Sub => Vectors.Sub(ds[0], ds[1])
    case Mul => ProductTangent(xs[0], xs[1], ds[0], ds[1])
    case Div =>
      Vectors.Div(Vectors.Div(QuotientNumerator(xs[0], xs[1], ds[0], ds[1]), xs[1]), xs[1])
  }

  /** Operands moved a step `t` along the tangents. */
  function Perturb(xs: seq<Vec>, ds: seq<Vec>, t: real): (r: seq<Vec>)
    requires Fits(ds, xs)
    ensures Fits(r, xs)
    ensures forall i, k :: 0 <= i < |xs| && 0 <= k < |xs[i]| ==> r[i][k] == xs[i][k] + t * ds[i][k]
  {
    seq(|xs|, i requires 0 <= i < |xs| =>
      seq(|xs[i]|, k requires 0 <= k < |xs[i]| => xs[i][k] + t * ds[i][k]))
  }

  /** The exact difference quotient of `Forward` between `xs` and
      `Perturb(xs, ds, t)`, written as a rational function of `t`;
      `DiffQuotRemainder` bounds its distance from `Jvp` by `|t|` times a
      step-independent bound. */
  function DiffQuot(op: Op, xs: seq<Vec>, ds: seq<Vec>, t: real): (r: Vec)
    requires Fits(ds, xs) && Accepts(op, xs) && Accepts(op, Perturb(xs, ds, t))
    ensures |r| == OutLen(op, xs)
  {
    match op
    case Neg => Vectors.Neg(ds[0])
    case Sum => [Vectors.Total(ds[0])]
    case Add => Vectors.Add(ds[0], ds[1])
    case Sub => Vectors.Sub(ds[0], ds[1])
    case Mul =>
      Vectors.Add(ProductTangent(xs[0], xs[1], ds[0], ds[1]), Vectors.Scale(t, Vectors.Mul(ds[0], ds[1])))
    case Div =>
      var p := Perturb(xs, ds, t);
      Vectors.Div(Vectors.Div(QuotientNumerator(xs[0], xs[1], ds[0], ds[1]), xs[1]), p[1])
  }

  /** Sum over operands of the inner product of each gradient with its
      tangent. */
  function SumDots(vs: seq<Vec>, ds: seq<Vec>): (r: real)
    requires Fits(ds, vs)
  {
    if |vs| == 0 then 0.0 else Vectors.Dot(vs[0], ds[0]) + SumDots(vs[1..], ds[1..])
  }

  // ---------------------------------------------------------------------
  // Linearity of the VJPs in the seed
  // ---------------------------------------------------------------------

  /** Every VJP is linear in its seed: the gradient of a sum of seeds is the
      sum of the gradients. */
  lemma VjpLinear(op: Op, g1: Vec, g2: Vec, xs: seq<Vec>)
    requires Accepts(op, xs) && |g1| == |g2| == OutLen(op, xs)
    ensures var a, b, c := Vjp(op, g1, xs), Vjp(op, g2, xs), Vjp(op, Vectors.Add(g1, g2), xs);
      forall i :: 0 <= i < |xs| ==> c[i] == Vectors.Add(a[i], b[i])
  {
    match op
    case Neg =>
      NegLinear(g1, g2);
    case Sum =>
    case Add =>
    case Sub =>
      NegLinear(g1, g2);
    case Mul =>
      MulLinear(g1, g2, xs[1]);
      MulLinear(g1, g2, xs[0]);
    case Div =>
      var x1, x2 := xs[0], xs[1];
      MulLinear(g1, g2, Vectors.ScalarDiv(1.0, x2));
      MulLinear(g1, g2, x1);
      var a, b := Vectors.Mul(g1, x1), Vectors.Mul(g2, x1);
      NegLinear(a, b);
      DivLinear(Vectors.Neg(a), Vectors.Neg(b), x2);
      DivLinear(Vectors.Div(Vectors.Neg(a), x2), Vectors.Div(Vectors.Neg(b), x2), x2);
  }

  /** Elementwise multiplication by a fixed array is linear. */
  lemma MulLinear(g1: Vec, g2: Vec, x: Vec)
    requires |g1| == |g2| == |x|
    ensures Vectors.Mul(Vectors.Add(g1, g2), x) == Vectors.Add(Vectors.Mul(g1, x), Vectors.Mul(g2, x))
  {
    var l, r := Vectors.Mul(Vectors.Add(g1, g2), x), Vectors.Add(Vectors.Mul(g1, x), Vectors.Mul(g2, x));
    forall k | 0 <= k < |x| ensures l[k] == r[k] {
      Vectors.DistributesScalar(g1[k], g2[k], x[k]);
    }
  }

  lemma NegLinear(a: Vec, b: Vec)
    requires |a| == |b|
    ensures Vectors.Neg(Vectors.Add(a, b)) == Vectors.Add(Vectors.Neg(a), Vectors.Neg(b))
  {
  }

  /** Elementwise division by a fixed array is linear. */
  lemma DivLinear(a: Vec, b: Vec, x: Vec)
    requires |a| == |b| == |x| && Vectors.NonZero(x)
    ensures Vectors.Div(Vectors.Add(a, b), x) == Vectors.Add(Vectors.Div(a, x), Vectors.Div(b, x))
  {
    var s := Vectors.Add(a, b);
    var l, ra, rb := Vectors.Div(s, x), Vectors.Div(a, x), Vectors.Div(b, x);
    var r := Vectors.Add(ra, rb);
    forall k | 0 <= k < |x| ensures l[k] == r[k] {
      DivDistributes(a[k], b[k], x[k], s[k], l[k], ra[k], rb[k]);
    }
  }

  lemma DivDistributes(a: real, b: real, x: real, s: real, l: real, ra: real, rb: real)
    requires x != 0.0 && s == a + b && l == s / x && ra == a / x && rb == b / x
    ensures l == ra + rb
  {
  }

  /** Every VJP sends a zero seed to zero gradients. */
  lemma VjpZero(op: Op, xs: seq<Vec>)
    requires Accepts(op, xs)
    ensures var r := Vjp(op, Vectors.Zeros(OutLen(op, xs)), xs);
      forall i :: 0 <= i < |xs| ==> r[i] == Vectors.Zeros(|xs[i]|)
  {
    var z := Vectors.Zeros(OutLen(op, xs));
    match op
    case Neg =>
      assert Vectors.Neg(z) == z;
    case Sum =>
    case Add =>
    case Sub =>
      assert Vectors.Neg(z) == z;
    case Mul =>
      ZeroProduct(z, xs[1]);
      ZeroProduct(z, xs[0]);
    case Div =>
      var x1, x2 := xs[0], xs[1];
      ZeroProduct(z, Vectors.ScalarDiv(1.0, x2));
      ZeroProduct(z, x1);
      assert Vectors.Neg(z) == z;
      ZeroQuotient(z, x2);
  }

  lemma ZeroProduct(z: Vec, x: Vec)
    requires z == Vectors.Zeros(|x|)
    ensures Vectors.Mul(z, x) == z
  {
    var l := Vectors.Mul(z, x);
    forall k | 0 <= k < |x| ensures l[k] == z[k] {
      assert l[k] == z[k] * x[k];
    }
  }

  lemma ZeroQuotient(z: Vec, x: Vec)
    requires z == Vectors.Zeros(|x|) && Vectors.NonZero(x)
    ensures Vectors.Div(z, x) == z
  {
    var l := Vectors.Div(z, x);
    forall k | 0 <= k < |x| ensures l[k] == z[k] {
      assert l[k] == z[k] / x[k];
    }
  }

  // ---------------------------------------------------------------------
  // The VJP is the adjoint of the derivative
  // ---------------------------------------------------------------------

  /** The adjoint identity: the VJP is the transpose of the derivative, so
      for every seed `g` and tangents `ds`, `<g, J ds> == sum_i <vjp_i, ds_i>`. */
  lemma VjpIsAdjoint(op: Op, g: Vec, xs: seq<Vec>, ds: seq<Vec>)
    requires Accepts(op, xs) && Fits(ds, xs) && |g| == OutLen(op, xs)
    ensures Vectors.Dot(g, Jvp(op, xs, ds)) == SumDots(Vjp(op, g, xs), ds)
  {
    match op
    case Neg => AdjointNeg(g, xs, ds);
    case Sum => AdjointSum(g, xs, ds);
    case Add => AdjointAdd(g, xs, ds);
    case Sub => AdjointSub(g, xs, ds);
    case Mul => AdjointMul(g, xs, ds);
    case Div => AdjointDiv(g, xs, ds);
  }

  /** The VJP rules are the only ones the adjoint identity allows: any
      gradients that satisfy it for every tangent are the VJP's. With
      `VjpIsAdjoint`, gradients satisfy the identity exactly when they equal
      the VJP, so each rule is fixed by the tangent rule alone. */
  lemma VjpUnique(op: Op, g: Vec, xs: seq<Vec>, v: seq<Vec>)
    requires Accepts(op, xs) && |g| == OutLen(op, xs) && Fits(v, xs)
    requires forall ds :: Fits(ds, xs) ==> Vectors.Dot(g, Jvp(op, xs, ds)) == SumDots(v, ds)
    ensures v == Vjp(op, g, xs)
  {
    var w := Vjp(op, g, xs);
    forall i | 0 <= i < |xs| ensures v[i] == w[i] {
      forall k | 0 <= k < |xs[i]| ensures v[i][k] == w[i][k] {
        var e := BasisTangents(xs, i, k);
        VjpIsAdjoint(op, g, xs, e);
        SumDotsAt(v, e, i);
        SumDotsAt(w, e, i);
        Vectors.DotBasis(v[i], k);
        Vectors.DotBasis(w[i], k);
      }
    }
  }

  /** The tangents that move only element `k` of operand `i`, by one. */
  function BasisTangents(xs: seq<Vec>, i: nat, k: nat): (r: seq<Vec>)
    requires i < |xs| && k < |xs[i]|
    ensures Fits(r, xs)
    ensures r[i] == Vectors.Basis(|xs[i]|, k)
    ensures forall j :: 0 <= j < |xs| && j != i ==> r[j] == Vectors.Zeros(|xs[j]|)
  {
    seq(|xs|, j requires 0 <= j < |xs| => if j == i then Vectors.Basis(|xs[j]|, k) else Vectors.Zeros(|xs[j]|))
  }

  /** Tangents that vanish on every operand but `i` pair only with the
      gradient of operand `i`. */
  lemma {:induction false} SumDotsAt(vs: seq<Vec>, ds: seq<Vec>, i: nat)
    requires Fits(ds, vs) && i < |vs|
    requires forall j :: 0 <= j < |vs| && j != i ==> ds[j] == Vectors.Zeros(|vs[j]|)
    ensures SumDots(vs, ds) == Vectors.Dot(vs[i], ds[i])
  {
    if i == 0 {
      SumDotsZeros(vs[1..], ds[1..]);
    } else {
      Vectors.DotZerosRight(vs[0]);
      SumDotsAt(vs[1..], ds[1..], i - 1);
    }
  }

  lemma {:induction false} SumDotsZeros(vs: seq<Vec>, ds: seq<Vec>)
    requires Fits(ds, vs)
    requires forall j :: 0 <= j < |vs| ==> ds[j] == Vectors.Zeros(|vs[j]|)
    ensures SumDots(vs, ds) == 0.0
  {
    if |vs| > 0 {
      Vectors.DotZerosRight(vs[0]);
      SumDotsZeros(vs[1..], ds[1..]);
    }
  }

  lemma SumDotsOne(v: seq<Vec>, ds: seq<Vec>)
    requires Fits(ds, v) && |v| == 1
    ensures SumDots(v, ds) == Vectors.Dot(v[0], ds[0])
  {
    assert v[1..] == [] && ds[1..] == [];
  }

  lemma SumDotsTwo(v: seq<Vec>, ds: seq<Vec>)
    requires Fits(ds, v) && |v| == 2
    ensures SumDots(v, ds) == Vectors.Dot(v[0], ds[0]) + Vectors.Dot(v[1], ds[1])
  {
    assert SumDots(v, ds) == Vectors.Dot(v[0], ds[0]) + SumDots(v[1..], ds[1..]);
    assert v[1..][0] == v[1] && ds[1..][0] == ds[1];
    assert v[1..][1..] == [] && ds[1..][1..] == [];
    assert SumDots(v[1..], ds[1..]) == Vectors.Dot(v[1], ds[1]) + SumDots([], []);
  }

  /** The inner product of a pointwise two-term sum splits in two. */
  lemma DotOfPointwise(g: Vec, j: Vec, v0: Vec, d0: Vec, v1: Vec, d1: Vec)
    requires |g| == |j| == |v0| == |d0| == |v1| == |d1|
    requires forall k :: 0 <= k < |g| ==> g[k] * j[k] == v0[k] * d0[k] + v1[k] * d1[k]
    ensures Vectors.Dot(g, j) == Vectors.Dot(v0, d0) + Vectors.Dot(v1, d1)
  {
    var l, a, b := Vectors.Mul(g, j), Vectors.Mul(v0, d0), Vectors.Mul(v1, d1);
    forall k | 0 <= k < |l| ensures l[k] == a[k] + b[k] {
    }
    Vectors.TotalPointwise(l, a, b);
  }

  lemma AdjointNeg(g: Vec, xs: seq<Vec>, ds: seq<Vec>)
    requires Accepts(Neg, xs) && Fits(ds, xs) && |g| == OutLen(Neg, xs)
    ensures Vectors.Dot(g, Jvp(Neg, xs, ds)) == SumDots(Vjp(Neg, g, xs), ds)
  {
    var d := ds[0];
    var lhs, rhs := Vectors.Mul(g, Vectors.Neg(d)), Vectors.Mul(Vectors.Neg(g), d);
    forall k | 0 <= k < |lhs| ensures lhs[k] == rhs[k] {
      NegSwap(g[k], d[k]);
    }
    assert lhs == rhs;
    assert Jvp(Neg, xs, ds) == Vectors.Neg(d);
    assert Vjp(Neg, g, xs) == [Vectors.Neg(g)];
    SumDotsOne(Vjp(Neg, g, xs), ds);
  }

  lemma NegSwap(a: real, b: real)
    ensures a * -b == -a * b
  {
  }

  lemma AdjointSum(g: Vec, xs: seq<Vec>, ds: seq<Vec>)
    requires Accepts(Sum, xs) && Fits(ds, xs) && |g| == OutLen(Sum, xs)
    ensures Vectors.Dot(g, Jvp(Sum, xs, ds)) == SumDots(Vjp(Sum, g, xs), ds)
  {
    DotSingleTotal(g, ds[0]);
    Vectors.MulFill(g[0], ds[0]);
    SumDotsOne(Vjp(Sum, g, xs), ds);
  }

  lemma DotSingleTotal(g: Vec, d: Vec)
    requires |g| == 1
    ensures Vectors.Dot(g, [Vectors.Total(d)]) == Vectors.Total(Vectors.Scale(g[0], d))
  {
    Vectors.DotSingle(g, Vectors.Total(d));
    Vectors.TotalScale(g[0], d);
  }

  lemma AdjointAdd(g: Vec, xs: seq<Vec>, ds: seq<Vec>)
    requires Accepts(Add, xs) && Fits(ds, xs) && |g| == OutLen(Add, xs)
    ensures Vectors.Dot(g, Jvp(Add, xs, ds)) == SumDots(Vjp(Add, g, xs), ds)
  {
    var j := Jvp(Add, xs, ds);
    forall k | 0 <= k < |g| ensures g[k] * j[k] == g[k] * ds[0][k] + g[k] * ds[1][k] {
      Vectors.DistributesScalar(ds[0][k], ds[1][k], g[k]);
    }
    DotOfPointwise(g, j, g, ds[0], g, ds[1]);
    SumDotsTwo(Vjp(Add, g, xs), ds);
  }

  lemma AdjointSub(g: Vec, xs: seq<Vec>, ds: seq<Vec>)
    requires Accepts(Sub, xs) && Fits(ds, xs) && |g| == OutLen(Sub, xs)
    ensures Vectors.Dot(g, Jvp(Sub, xs, ds)) == SumDots(Vjp(Sub, g, xs), ds)
  {
    var j, ng := Jvp(Sub, xs, ds), Vectors.Neg(g);
    forall k | 0 <= k < |g| ensures g[k] * j[k] == g[k] * ds[0][k] + ng[k] * ds[1][k] {
      SubScalar(g[k], ds[0][k], ds[1][k]);
    }
    DotOfPointwise(g, j, g, ds[0], ng, ds[1]);
    SumDotsTwo(Vjp(Sub, g, xs), ds);
  }

  lemma SubScalar(g: real, d1: real, d2: real)
    ensures g * (d1 - d2) == g * d1 + -g * d2
  {
  }

  lemma AdjointMul(g: Vec, xs: seq<Vec>, ds: seq<Vec>)
    requires Accepts(Mul, xs) && Fits(ds, xs) && |g| == OutLen(Mul, xs)
    ensures Vectors.Dot(g, Jvp(Mul, xs, ds)) == SumDots(Vjp(Mul, g, xs), ds)
  {
    var x1, x2, d1, d2 := xs[0], xs[1], ds[0], ds[1];
    var m1, m2 := Vectors.Mul(d1, x2), Vectors.Mul(x1, d2);
    var j := Jvp(Mul, xs, ds);
    var v0, v1 := Vectors.Mul(g, x2), Vectors.Mul(g, x1);
    assert j == Vectors.Add(m1, m2);
    forall k | 0 <= k < |g| ensures g[k] * j[k] == v0[k] * d1[k] + v1[k] * d2[k] {
      ProductAdjointScalar(g[k], x1[k], x2[k], d1[k], d2[k], m1[k], m2[k], j[k], v0[k], v1[k]);
    }
    DotOfPointwise(g, j, v0, d1, v1, d2);
    SumDotsTwo(Vjp(Mul, g, xs), ds);
  }

  lemma ProductAdjointScalar(g: real, x1: real, x2: real, d1: real, d2: real,
                             m1: real, m2: real, j: real, v0: real, v1: real)
    requires m1 == d1 * x2 && m2 == x1 * d2 && j == m1 + m2
    requires v0 == g * x2 && v1 == g * x1
    ensures g * j == v0 * d1 + v1 * d2
  {
  }

  lemma AdjointDiv(g: Vec, xs: seq<Vec>, ds: seq<Vec>)
    requires Accepts(Div, xs) && Fits(ds, xs) && |g| == OutLen(Div, xs)
    ensures Vectors.Dot(g, Jvp(Div, xs, ds)) == SumDots(Vjp(Div, g, xs), ds)
  {
    var x1, x2, d1, d2 := xs[0], xs[1], ds[0], ds[1];
    var j := Vectors.Div(Vectors.Div(QuotientNumerator(x1, x2, d1, d2), x2), x2);
    var v0 := Vectors.Mul(g, Vectors.ScalarDiv(1.0, x2));
    var v1 := Vectors.Div(Vectors.Div(Vectors.Neg(Vectors.Mul(g, x1)), x2), x2);
    assert Jvp(Div, xs, ds) == j;
    assert Vjp(Div, g, xs) == [v0, v1];
    QuotientAdjointDots(g, x1, x2, d1, d2, j, v0, v1);
    SumDotsTwo([v0, v1], ds);
  }

  lemma QuotientAdjointDots(g: Vec, x1: Vec, x2: Vec, d1: Vec, d2: Vec, j: Vec, v0: Vec, v1: Vec)
    requires |g| == |x1| == |x2| == |d1| == |d2| && Vectors.NonZero(x2)
    requires j == Vectors.Div(Vectors.Div(QuotientNumerator(x1, x2, d1, d2), x2), x2)
    requires v0 == Vectors.Mul(g, Vectors.ScalarDiv(1.0, x2))
    requires v1 == Vectors.Div(Vectors.Div(Vectors.Neg(Vectors.Mul(g, x1)), x2), x2)
    ensures Vectors.Dot(g, j) == Vectors.Dot(v0, d1) + Vectors.Dot(v1, d2)
  {
    forall k | 0 <= k < |g| ensures g[k] * j[k] == v0[k] * d1[k] + v1[k] * d2[k] {
      QuotientAdjointAt(g, x1, x2, d1, d2, k);
    }
    DotOfPointwise(g, j, v0, d1, v1, d2);
  }

  /** The quotient's adjoint identity at one index. */
  lemma QuotientAdjointAt(g: Vec, x1: Vec, x2: Vec, d1: Vec, d2: Vec, k: nat)
    requires k < |g| == |x1| == |x2| == |d1| == |d2| && Vectors.NonZero(x2)
    ensures var j := Vectors.Div(Vectors.Div(QuotientNumerator(x1, x2, d1, d2), x2), x2);
      var v0 := Vectors.Mul(g, Vectors.ScalarDiv(1.0, x2));
      var v1 := Vectors.Div(Vectors.Div(Vectors.Neg(Vectors.Mul(g, x1)), x2), x2);
      g[k] * j[k] == v0[k] * d1[k] + v1[k] * d2[k]
  {
    var j := Vectors.Div(Vectors.Div(QuotientNumerator(x1, x2, d1, d2), x2), x2);
    var v0 := Vectors.Mul(g, Vectors.ScalarDiv(1.0, x2));
    var v1 := Vectors.Div(Vectors.Div(Vectors.Neg(Vectors.Mul(g, x1)), x2), x2);
    assert j[k] == (d1[k] * x2[k] - x1[k] * d2[k]) / x2[k] / x2[k];
    assert v0[k] == g[k] * (1.0 / x2[k]);
    assert v1[k] == -(g[k] * x1[k]) / x2[k] / x2[k];
    QuotientAdjointScalar(g[k], x1[k], x2[k], d1[k], d2[k], j[k], v0[k], v1[k]);
  }

  /** `g * j == v0 * d1 + v1 * d2` for the quotient's tangent `j` and VJP
      `v0, v1`, both with the denominator applied as two divisions. */
  lemma QuotientAdjointScalar(g: real, x1: real, x2: real, d1: real, d2: real, j: real, v0: real, v1: real)
    requires x2 != 0.0
    requires j == (d1 * x2 - x1 * d2) / x2 / x2
    requires v0 == g * (1.0 / x2) && v1 == -(g * x1) / x2 / x2
    ensures g * j == v0 * d1 + v1 * d2
  {
  }

  // ---------------------------------------------------------------------
  // The tangent rule is the derivative of the forward evaluation
  // ---------------------------------------------------------------------

  /** Moving the operands a step `t` along `ds` moves the result by exactly
      `t` times the difference quotient. */
  lemma ForwardDifference(op: Op, xs: seq<Vec>, ds: seq<Vec>, t: real)
    requires Fits(ds, xs) && Accepts(op, xs) && Accepts(op, Perturb(xs, ds, t))
    ensures Forward(op, Perturb(xs, ds, t))
         == Vectors.Add(Forward(op, xs), Vectors.Scale(t, DiffQuot(op, xs, ds, t)))
  {
    match op
    case Sum => SumDifference(xs, ds, t);
    case Neg => NegDifference(xs, ds, t);
    case Add => AddDifference(xs, ds, t);
    case Sub => SubDifference(xs, ds, t);
    case Mul => ProductDifference(xs, ds, t);
    case Div => QuotientDifference(xs, ds, t);
  }

  lemma SumDifference(xs: seq<Vec>, ds: seq<Vec>, t: real)
    requires Fits(ds, xs) && Accepts(Sum, xs) && Accepts(Sum, Perturb(xs, ds, t))
    ensures Forward(Sum, Perturb(xs, ds, t))
         == Vectors.Add(Forward(Sum, xs), Vectors.Scale(t, DiffQuot(Sum, xs, ds, t)))
  {
    var p := Perturb(xs, ds, t);
    var lhs, rhs := Forward(Sum, p), Vectors.Add(Forward(Sum, xs), Vectors.Scale(t, DiffQuot(Sum, xs, ds, t)));
    SumStep(xs[0], ds[0], t, p[0]);
    assert lhs[0] == rhs[0];
  }

  lemma NegDifference(xs: seq<Vec>, ds: seq<Vec>, t: real)
    requires Fits(ds, xs) && Accepts(Neg, xs) && Accepts(Neg, Perturb(xs, ds, t))
    ensures Forward(Neg, Perturb(xs, ds, t))
         == Vectors.Add(Forward(Neg, xs), Vectors.Scale(t, DiffQuot(Neg, xs, ds, t)))
  {
    var p := Perturb(xs, ds, t);
    var lhs, q := Forward(Neg, p), DiffQuot(Neg, xs, ds, t);
    var f := Forward(Neg, xs);
    var ts := Vectors.Scale(t, q);
    forall k | 0 <= k < |lhs| ensures lhs[k] == f[k] + ts[k] {
      NegStep(xs[0][k], ds[0][k], t, p[0][k], lhs[k], f[k], q[k], ts[k]);
    }
  }

  lemma AddDifference(xs: seq<Vec>, ds: seq<Vec>, t: real)
    requires Fits(ds, xs) && Accepts(Add, xs) && Accepts(Add, Perturb(xs, ds, t))
    ensures Forward(Add, Perturb(xs, ds, t))
         == Vectors.Add(Forward(Add, xs), Vectors.Scale(t, DiffQuot(Add, xs, ds, t)))
  {
    var p := Perturb(xs, ds, t);
    var lhs, q := Forward(Add, p), DiffQuot(Add, xs, ds, t);
    var f := Forward(Add, xs);
    var ts := Vectors.Scale(t, q);
    forall k | 0 <= k < |lhs| ensures lhs[k] == f[k] + ts[k] {
      SumStepScalar(xs[0][k], xs[1][k], ds[0][k], ds[1][k], t, p[0][k], p[1][k], lhs[k], f[k], q[k], ts[k]);
    }
  }

  lemma SubDifference(xs: seq<Vec>, ds: seq<Vec>, t: real)
    requires Fits(ds, xs) && Accepts(Sub, xs) && Accepts(Sub, Perturb(xs, ds, t))
    ensures Forward(Sub, Perturb(xs, ds, t))
         == Vectors.Add(Forward(Sub, xs), Vectors.Scale(t, DiffQuot(Sub, xs, ds, t)))
  {
    var p := Perturb(xs, ds, t);
    var lhs, q := Forward(Sub, p), DiffQuot(Sub, xs, ds, t);
    var f := Forward(Sub, xs);
    var ts := Vectors.Scale(t, q);
    forall k | 0 <= k < |lhs| ensures lhs[k] == f[k] + ts[k] {
      DiffStepScalar(xs[0][k], xs[1][k], ds[0][k], ds[1][k], t, p[0][k], p[1][k], lhs[k], f[k], q[k], ts[k]);
    }
  }

  lemma ProductDifference(xs: seq<Vec>, ds: seq<Vec>, t: real)
    requires Fits(ds, xs) && Accepts(Mul, xs) && Accepts(Mul, Perturb(xs, ds, t))
    ensures Forward(Mul, Perturb(xs, ds, t))
         == Vectors.Add(Forward(Mul, xs), Vectors.Scale(t, DiffQuot(Mul, xs, ds, t)))
  {
    var lhs, f, q := Forward(Mul, Perturb(xs, ds, t)), Forward(Mul, xs), DiffQuot(Mul, xs, ds, t);
    var ts := Vectors.Scale(t, q);
    forall k | 0 <= k < |lhs| ensures lhs[k] == f[k] + ts[k] {
      ProductAt(xs, ds, t, k);
    }
  }

  /** The product rule at one index. */
  lemma ProductAt(xs: seq<Vec>, ds: seq<Vec>, t: real, k: nat)
    requires Fits(ds, xs) && Accepts(Mul, xs) && Accepts(Mul, Perturb(xs, ds, t)) && k < |xs[0]|
    ensures Forward(Mul, Perturb(xs, ds, t))[k] == Forward(Mul, xs)[k] + t * DiffQuot(Mul, xs, ds, t)[k]
  {
  }

  lemma QuotientDifference(xs: seq<Vec>, ds: seq<Vec>, t: real)
    requires Fits(ds, xs) && Accepts(Div, xs) && Accepts(Div, Perturb(xs, ds, t))
    ensures Forward(Div, Perturb(xs, ds, t))
         == Vectors.Add(Forward(Div, xs), Vectors.Scale(t, DiffQuot(Div, xs, ds, t)))
  {
    var lhs, f, q := Forward(Div, Perturb(xs, ds, t)), Forward(Div, xs), DiffQuot(Div, xs, ds, t);
    var ts := Vectors.Scale(t, q);
    forall k | 0 <= k < |lhs| ensures lhs[k] == f[k] + ts[k] {
      QuotientAt(xs, ds, t, k);
    }
  }

  /** The quotient rule at one index. */
  lemma QuotientAt(xs: seq<Vec>, ds: seq<Vec>, t: real, k: nat)
    requires Fits(ds, xs) && Accepts(Div, xs) && Accepts(Div, Perturb(xs, ds, t)) && k < |xs[0]|
    ensures Forward(Div, Perturb(xs, ds, t))[k] == Forward(Div, xs)[k] + t * DiffQuot(Div, xs, ds, t)[k]
  {
  }

  lemma SumStep(x: Vec, d: Vec, t: real, p: Vec)
    requires |x| == |d| == |p|
    requires forall k :: 0 <= k < |p| ==> p[k] == x[k] + t * d[k]
    ensures Vectors.Total(p) == Vectors.Total(x) + t * Vectors.Total(d)
  {
    var td := Vectors.Scale(t, d);
    Vectors.TotalPointwise(p, x, td);
    Vectors.TotalScale(t, d);
  }

  // In the scalar steps below, `a` and `b` are the perturbed operands, `l`
  // the perturbed result, `f` the unperturbed result, `q` the difference
  // quotient and `ts` the step `t * q`.

  lemma NegStep(x: real, d: real, t: real, a: real, l: real, f: real, q: real, ts: real)
    requires a == x + t * d && l == -a && f == -x && q == -d && ts == t * q
    ensures l == f + ts
  {
  }

  lemma SumStepScalar(x1: real, x2: real, d1: real, d2: real, t: real, a: real, b: real, l: real, f: real, q: real, ts: real)
    requires a == x1 + t * d1 && b == x2 + t * d2
    requires l == a + b && f == x1 + x2 && q == d1 + d2 && ts == t * q
    ensures l == f + ts
  {
  }

  lemma DiffStepScalar(x1: real, x2: real, d1: real, d2: real, t: real, a: real, b: real, l: real, f: real, q: real, ts: real)
    requires a == x1 + t * d1 && b == x2 + t * d2
    requires l == a - b && f == x1 - x2 && q == d1 - d2 && ts == t * q
    ensures l == f + ts
  {
  }

  /** At step zero the operands do not move and the difference quotient's
      closed form is the tangent rule. */
  lemma DiffQuotAtZero(op: Op, xs: seq<Vec>, ds: seq<Vec>)
    requires Fits(ds, xs) && Accepts(op, xs)
    ensures Perturb(xs, ds, 0.0) == xs
    ensures DiffQuot(op, xs, ds, 0.0) == Jvp(op, xs, ds)
  {
    var p := Perturb(xs, ds, 0.0);
    forall i | 0 <= i < |xs| ensures p[i] == xs[i] {
    }
    if op == Mul {
      var e := Vectors.Mul(ds[0], ds[1]);
      var z := Vectors.Scale(0.0, e);
      assert z == Vectors.Zeros(|e|);
      Vectors.AddZeros(ProductTangent(xs[0], xs[1], ds[0], ds[1]));
    }
  }

  // ---------------------------------------------------------------------
  // The difference quotient tends to the tangent rule
  // ---------------------------------------------------------------------

  /** The step is small against every divisor: for `Div`, `2 * |t * d2|` is at
      most `|x2|` elementwise, so the moved divisor keeps at least half of its
      magnitude. The other operators put no condition on the step. */
  predicate Near(op: Op, xs: seq<Vec>, ds: seq<Vec>, t: real)
    requires Fits(ds, xs) && ShapesAgree(op, xs)
  {
    op == Div ==> forall k :: 0 <= k < |xs[1]| ==> NearAt(xs[1][k], ds[1][k], t)
  }

  /** One divisor element `x2` moved by `t * d2`: `2 * |t * d2| <= |x2|`. */
  predicate NearAt(x2: real, d2: real, t: real) {
    2.0 * Vectors.Abs(t * d2) <= Vectors.Abs(x2)
  }

  /** Per element, a bound on `|DiffQuot - Jvp| / |t|` that does not depend on
      the step: zero for the linear operators, `|d1 * d2|` for the product,
      and `2 * |h * d2 / x2| / |x2|` for the quotient, where
      `h = (d1 * x2 - x1 * d2) / x2`. */
  function RemainderBound(op: Op, xs: seq<Vec>, ds: seq<Vec>): (r: Vec)
    requires Accepts(op, xs) && Fits(ds, xs)
    ensures |r| == OutLen(op, xs)
  {
    match op
    case Mul =>
      seq(|xs[0]|, k requires 0 <= k < |xs[0]| => Vectors.Abs(ds[0][k] * ds[1][k]))
    case Div =>
      var h := Vectors.Div(QuotientNumerator(xs[0], xs[1], ds[0], ds[1]), xs[1]);
      seq(|xs[0]|, k requires 0 <= k < |xs[0]| => QuotientBound(h[k], xs[1][k], ds[1][k]))
    case _ => Vectors.Zeros(OutLen(op, xs))
  }

  /** The quotient's bound at one element: `2 * |h * d2 / x2| / |x2|`. */
  function QuotientBound(h: real, x2: real, d2: real): (r: real)
    requires x2 != 0.0
  {
    2.0 * Vectors.Abs(h * d2 / x2) / Vectors.Abs(x2)
  }

  /** `q` lies within `|t| * c` of `j`, element by element. */
  predicate Within(q: Vec, j: Vec, c: Vec, t: real)
    requires |q| == |j| == |c|
  {
    forall k :: 0 <= k < |q| ==> WithinAt(q[k], j[k], c[k], t)
  }

  predicate WithinAt(q: real, j: real, c: real, t: real) {
    Vectors.Abs(q - j) <= Vectors.Abs(t) * c
  }

  /** On a near step the moved operands are accepted, and the difference
      quotient is within `|t| * RemainderBound` of the tangent rule. The bound
      does not depend on `t`, so the quotient tends to `Jvp` as the step
      shrinks. */
  lemma DiffQuotRemainder(op: Op, xs: seq<Vec>, ds: seq<Vec>, t: real)
    requires Fits(ds, xs) && Accepts(op, xs) && Near(op, xs, ds, t)
    ensures Accepts(op, Perturb(xs, ds, t))
    ensures Within(DiffQuot(op, xs, ds, t), Jvp(op, xs, ds), RemainderBound(op, xs, ds), t)
  {
    NearAccepts(op, xs, ds, t);
    if op == Mul {
      ProductRemainders(xs, ds, t);
    } else if op == Div {
      QuotientRemainders(xs, ds, t);
    } else {
      LinearRemainder(op, xs, ds, t);
    }
  }

  lemma ProductRemainders(xs: seq<Vec>, ds: seq<Vec>, t: real)
    requires Fits(ds, xs) && Accepts(Mul, xs) && Accepts(Mul, Perturb(xs, ds, t))
    ensures Within(DiffQuot(Mul, xs, ds, t), Jvp(Mul, xs, ds), RemainderBound(Mul, xs, ds), t)
  {
    var q, j, c := DiffQuot(Mul, xs, ds, t), Jvp(Mul, xs, ds), RemainderBound(Mul, xs, ds);
    forall k | 0 <= k < |q| ensures WithinAt(q[k], j[k], c[k], t) {
      ProductRemainderAt(xs, ds, t, k);
    }
  }

  lemma QuotientRemainders(xs: seq<Vec>, ds: seq<Vec>, t: real)
    requires Fits(ds, xs) && Accepts(Div, xs) && Accepts(Div, Perturb(xs, ds, t)) && Near(Div, xs, ds, t)
    ensures Within(DiffQuot(Div, xs, ds, t), Jvp(Div, xs, ds), RemainderBound(Div, xs, ds), t)
  {
    var q, j, c := DiffQuot(Div, xs, ds, t), Jvp(Div, xs, ds), RemainderBound(Div, xs, ds);
    forall k | 0 <= k < |q| ensures WithinAt(q[k], j[k], c[k], t) {
      QuotientRemainderAt(xs, ds, t, k);
    }
  }

  /** Without a product or a divisor the difference quotient is the tangent
      rule itself. */
  lemma LinearRemainder(op: Op, xs: seq<Vec>, ds: seq<Vec>, t: real)
    requires Fits(ds, xs) && Accepts(op, xs) && Accepts(op, Perturb(xs, ds, t)) && op != Mul && op != Div
    ensures Within(DiffQuot(op, xs, ds, t), Jvp(op, xs, ds), RemainderBound(op, xs, ds), t)
  {
    var q, j, c := DiffQuot(op, xs, ds, t), Jvp(op, xs, ds), RemainderBound(op, xs, ds);
    assert q == j && c == Vectors.Zeros(|q|);
  }

  /** A near step keeps every divisor nonzero. */
  lemma NearAccepts(op: Op, xs: seq<Vec>, ds: seq<Vec>, t: real)
    requires Fits(ds, xs) && Accepts(op, xs) && Near(op, xs, ds, t)
    ensures Accepts(op, Perturb(xs, ds, t))
  {
    var p := Perturb(xs, ds, t);
    if op == Div {
      forall k | 0 <= k < |p[1]| ensures p[1][k] != 0.0 {
        assert NearAt(xs[1][k], ds[1][k], t);
        HalfDivisor(xs[1][k], t * ds[1][k], p[1][k]);
      }
    }
  }

  lemma ProductRemainderAt(xs: seq<Vec>, ds: seq<Vec>, t: real, k: nat)
    requires Fits(ds, xs) && Accepts(Mul, xs) && k < |xs[0]|
    ensures WithinAt(DiffQuot(Mul, xs, ds, t)[k], Jvp(Mul, xs, ds)[k], RemainderBound(Mul, xs, ds)[k], t)
  {
    var e := ds[0][k] * ds[1][k];
    var q, j := DiffQuot(Mul, xs, ds, t)[k], Jvp(Mul, xs, ds)[k];
    assert q == j + t * e;
    ProductRemainder(q, j, t, e);
  }

  lemma QuotientRemainderAt(xs: seq<Vec>, ds: seq<Vec>, t: real, k: nat)
    requires Fits(ds, xs) && Accepts(Div, xs) && Accepts(Div, Perturb(xs, ds, t)) && k < |xs[0]|
    requires NearAt(xs[1][k], ds[1][k], t)
    ensures WithinAt(DiffQuot(Div, xs, ds, t)[k], Jvp(Div, xs, ds)[k], RemainderBound(Div, xs, ds)[k], t)
  {
    var h := Vectors.Div(QuotientNumerator(xs[0], xs[1], ds[0], ds[1]), xs[1])[k];
    QuotientElements(xs, ds, t, k);
    QuotientRemainder(h, xs[1][k], ds[1][k], t, Perturb(xs, ds, t)[1][k],
                      DiffQuot(Div, xs, ds, t)[k], Jvp(Div, xs, ds)[k], RemainderBound(Div, xs, ds)[k]);
  }

  /** The quotient's difference quotient, tangent and bound at one index,
      in terms of `h = (d1 * x2 - x1 * d2) / x2`. */
  lemma QuotientElements(xs: seq<Vec>, ds: seq<Vec>, t: real, k: nat)
    requires Fits(ds, xs) && Accepts(Div, xs) && Accepts(Div, Perturb(xs, ds, t)) && k < |xs[0]|
    ensures var h := Vectors.Div(QuotientNumerator(xs[0], xs[1], ds[0], ds[1]), xs[1])[k];
      && DiffQuot(Div, xs, ds, t)[k] == h / Perturb(xs, ds, t)[1][k]
      && Jvp(Div, xs, ds)[k] == h / xs[1][k]
      && RemainderBound(Div, xs, ds)[k] == QuotientBound(h, xs[1][k], ds[1][k])
      && Perturb(xs, ds, t)[1][k] == xs[1][k] + t * ds[1][k]
  {
  }

  /** One element of the quotient: with `b = x2 + t * d2` and
      `2 * |t * d2| <= |x2|`, `|h / b - h / x2| <= |t| * c`. */
  lemma QuotientRemainder(h: real, x2: real, d2: real, t: real, b: real, q: real, j: real, c: real)
    requires x2 != 0.0 && b == x2 + t * d2 && NearAt(x2, d2, t)
    requires b != 0.0 && q == h / b && j == h / x2
    requires c == QuotientBound(h, x2, d2)
    ensures WithinAt(q, j, c, t)
  {
    var w := h * d2 / x2;
    QuotientGap(h, x2, d2, t, b, q, j, w);
    HalfDivisor(x2, t * d2, b);
    assert c == 2.0 * Vectors.Abs(w) / Vectors.Abs(x2);
    GapBound(q - j, b, x2, t, w, c);
  }

  /** A divisor moved by `u` with `2 * |u| <= |x2|` stays nonzero and keeps
      at least half of its magnitude. */
  lemma HalfDivisor(x2: real, u: real, b: real)
    requires x2 != 0.0 && b == x2 + u && 2.0 * Vectors.Abs(u) <= Vectors.Abs(x2)
    ensures b != 0.0 && Vectors.Abs(x2) <= 2.0 * Vectors.Abs(b)
  {
  }

  lemma ProductRemainder(q: real, j: real, t: real, e: real)
    requires q == j + t * e
    ensures WithinAt(q, j, Vectors.Abs(e), t)
  {
    Vectors.AbsMul(t, e);
  }

  /** `(h / b - h / x2) * b == -(t * (h * d2 / x2))` when `b = x2 + t * d2`. */
  lemma QuotientGap(h: real, x2: real, d2: real, t: real, b: real, q: real, j: real, w: real)
    requires x2 != 0.0 && b != 0.0 && b == x2 + t * d2
    requires q == h / b && j == h / x2 && w == h * d2 / x2
    ensures (q - j) * b == -(t * w)
  {
    assert q * b == h && j * x2 == h;
    var jd := j * d2;
    assert jd == w by {
      assert jd * x2 == h * d2;
    }
    assert j * b == j * x2 + t * jd;
  }

  /** From `dq * b == -(t * w)` and `|x2| <= 2 * |b|`:
      `|dq| <= |t| * (2 * |w| / |x2|)`. */
  lemma GapBound(dq: real, b: real, x2: real, t: real, w: real, c: real)
    requires x2 != 0.0 && dq * b == -(t * w) && Vectors.Abs(x2) <= 2.0 * Vectors.Abs(b)
    requires c == 2.0 * Vectors.Abs(w) / Vectors.Abs(x2)
    ensures Vectors.Abs(dq) <= Vectors.Abs(t) * c
  {
    var a, bb, x, tt, ww := Vectors.Abs(dq), Vectors.Abs(b), Vectors.Abs(x2), Vectors.Abs(t), Vectors.Abs(w);
    AbsProduct(dq, b, t, w);
    MulMonotone(a, x, 2.0 * bb);
    DivCancel(c, 2.0 * ww, x);
    ScaleChain(tt, c, x, ww);
    CloseBound(a, x, bb, tt, ww, c);
  }

  lemma AbsProduct(dq: real, b: real, t: real, w: real)
    requires dq * b == -(t * w)
    ensures Vectors.Abs(dq) * Vectors.Abs(b) == Vectors.Abs(t) * Vectors.Abs(w)
  {
    Vectors.AbsMul(dq, b);
    Vectors.AbsMul(t, w);
  }

  lemma DivCancel(c: real, n: real, x: real)
    requires 0.0 < x && c == n / x
    ensures c * x == n
  {
  }

  lemma CloseBound(a: real, x: real, bb: real, tt: real, ww: real, c: real)
    requires 0.0 < x && a * bb == tt * ww && a * x <= a * (2.0 * bb) && (tt * c) * x == 2.0 * (tt * ww)
    ensures a <= tt * c
  {
    assert a * (2.0 * bb) == 2.0 * (a * bb);
    CancelPositive(a, tt * c, x);
  }

  lemma ScaleChain(tt: real, c: real, x: real, ww: real)
    requires c * x == 2.0 * ww
    ensures (tt * c) * x == 2.0 * (tt * ww)
  {
    assert (tt * c) * x == tt * (c * x);
    MulCongruent(tt, c * x, 2.0 * ww);
  }

  lemma MulCongruent(a: real, u: real, v: real)
    requires u == v
    ensures a * u == a * v
  {
  }

  lemma MulMonotone(a: real, x: real, y: real)
    requires 0.0 <= a && x <= y
    ensures a * x <= a * y
  {
    assert a * y - a * x == a * (y - x);
  }

  lemma CancelPositive(a: real, b: real, x: real)
    requires 0.0 < x && a * x <= b * x
    ensures a <= b
  {
    assert (b - a) * x >= 0.0;
  }

  /** The radius one element allows: `|x2| / (2 * |d2| + 1)`. */
  function ElementRadius(x2: real, d2: real): (r: real)
    requires x2 != 0.0
    ensures 0.0 < r
  {
    Vectors.Abs(x2) / (2.0 * Vectors.Abs(d2) + 1.0)
  }

  lemma ElementRadiusScales(x2: real, d2: real)
    requires x2 != 0.0
    ensures ElementRadius(x2, d2) * (2.0 * Vectors.Abs(d2) + 1.0) == Vectors.Abs(x2)
  {
  }

  /** A radius within which every step is near for the quotient: the least
      element radius, or `1` when there are no elements. */
  function Radius(x2: Vec, d2: Vec): (r: real)
    requires |x2| == |d2| && Vectors.NonZero(x2)
    ensures 0.0 < r
  {
    if |x2| == 0 then 1.0
    else
      var v, rest := ElementRadius(x2[0], d2[0]), Radius(x2[1..], d2[1..]);
      if v <= rest then v else rest
  }

  /** The radius is at most every element's radius. */
  lemma {:induction false} RadiusBound(x2: Vec, d2: Vec, k: nat)
    requires |x2| == |d2| && Vectors.NonZero(x2) && k < |x2|
    ensures Radius(x2, d2) <= ElementRadius(x2[k], d2[k])
  {
    if k > 0 {
      RadiusBound(x2[1..], d2[1..], k - 1);
      assert x2[1..][k - 1] == x2[k] && d2[1..][k - 1] == d2[k];
    }
  }

  /** Every step no longer than the radius is near. */
  lemma NearWithinRadius(xs: seq<Vec>, ds: seq<Vec>, t: real)
    requires Fits(ds, xs) && Accepts(Div, xs) && Vectors.Abs(t) <= Radius(xs[1], ds[1])
    ensures Near(Div, xs, ds, t)
  {
    var r := Radius(xs[1], ds[1]);
    forall k | 0 <= k < |xs[1]| ensures NearAt(xs[1][k], ds[1][k], t) {
      RadiusBound(xs[1], ds[1], k);
      NearStep(t, ds[1][k], xs[1][k], r);
    }
  }

  /** A step no longer than an element's radius is near at that element. */
  lemma NearStep(t: real, d2: real, x2: real, r: real)
    requires x2 != 0.0 && Vectors.Abs(t) <= r <= ElementRadius(x2, d2)
    ensures NearAt(x2, d2, t)
  {
    var d, tt, e := Vectors.Abs(d2), Vectors.Abs(t), ElementRadius(x2, d2);
    ElementRadiusScales(x2, d2);
    Vectors.AbsMul(t, d2);
    MulMonotone(d, tt, e);
    NearClose(Vectors.Abs(t * d2), tt, d, e, Vectors.Abs(x2));
  }

  lemma NearClose(p: real, tt: real, d: real, e: real, x: real)
    requires p == tt * d && d * tt <= d * e && 0.0 < e && e * (2.0 * d + 1.0) == x
    ensures 2.0 * p <= x
  {
    assert e * (2.0 * d + 1.0) == 2.0 * (d * e) + e;
  }

  /** The steps the derivative statement ranges over: any step of length at
      most one for the operators without a divisor, the radius for the
      quotient. */
  function StepRadius(op: Op, xs: seq<Vec>, ds: seq<Vec>): (r: real)
    requires Accepts(op, xs) && Fits(ds, xs)
    ensures 0.0 < r
  {
    if op == Div then Radius(xs[1], ds[1]) else 1.0
  }

  /** `Jvp` is the derivative of `Forward`: every step within a positive
      radius is accepted, and the exact difference quotient lies within
      `|t| * RemainderBound` of the tangent rule. */
  lemma JvpIsDerivative(op: Op, xs: seq<Vec>, ds: seq<Vec>, t: real)
    requires Fits(ds, xs) && Accepts(op, xs) && Vectors.Abs(t) <= StepRadius(op, xs, ds)
    ensures Accepts(op, Perturb(xs, ds, t))
    ensures Within(DiffQuot(op, xs, ds, t), Jvp(op, xs, ds), RemainderBound(op, xs, ds), t)
  {
    if op == Div {
      NearWithinRadius(xs, ds, t);
    }
    DiffQuotRemainder(op, xs, ds, t);
  }
}
