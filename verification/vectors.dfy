/** Flat dense arrays of exact reals, the stand-in for the engine's numpy
    arrays. Every array is flattened to one dimension; a zero-dimensional
    value (the result of a sum-reduction, a leaf built from a 0-d array, or
    any operator result whose operands are all zero-dimensional) is an
    array of length one. */
module Vectors {

  type Vec = seq<real>

  /** An array of `n` zeros (numpy `zeros_like`). */
  function Zeros(n: nat): (r: Vec)
    ensures |r| == n
    ensures forall k :: 0 <= k < n ==> r[k] == 0.0
  {
    seq(n, _ => 0.0)
  }

  /** A scalar broadcast to an array of `n` elements. */
  function Fill(n: nat, c: real): (r: Vec)
    ensures |r| == n
    ensures forall k :: 0 <= k < n ==> r[k] == c
  {
    seq(n, _ => c)
  }

  function Add(a: Vec, b: Vec): (r: Vec)
    requires |a| == |b|
    ensures |r| == |a|
    ensures forall k :: 0 <= k < |r| ==> r[k] == a[k] + b[k]
  {
    seq(|a|, k requires 0 <= k < |a| => a[k] + b[k])
  }

  function Sub(a: Vec, b: Vec): (r: Vec)
    requires |a| == |b|
    ensures |r| == |a|
    ensures forall k :: 0 <= k < |r| ==> r[k] == a[k] - b[k]
  {
    seq(|a|, k requires 0 <= k < |a| => a[k] - b[k])
  }

  function Neg(a: Vec): (r: Vec)
    ensures |r| == |a|
    ensures forall k :: 0 <= k < |r| ==> r[k] == -a[k]
  {
    seq(|a|, k requires 0 <= k < |a| => -a[k])
  }

  /** Elementwise product. */
  function Mul(a: Vec, b: Vec): (r: Vec)
    requires |a| == |b|
    ensures |r| == |a|
    ensures forall k :: 0 <= k < |r| ==> r[k] == a[k] * b[k]
  {
    seq(|a|, k requires 0 <= k < |a| => a[k] * b[k])
  }

  /** The magnitude of a scalar. */
  function Abs(x: real): (r: real)
    ensures 0.0 <= r && (r == x || r == -x)
  {
    if x < 0.0 then -x else x
  }

  /** The magnitude of a product is the product of the magnitudes. */
  lemma AbsMul(x: real, y: real)
    ensures Abs(x * y) == Abs(x) * Abs(y)
  {
    if x < 0.0 && y >= 0.0 {
      assert x * y == -((-x) * y);
    } else if x >= 0.0 && y < 0.0 {
      assert x * y == -(x * (-y));
    } else if x < 0.0 {
      assert x * y == (-x) * (-y);
    }
  }

  predicate NonZero(a: Vec) {
    forall k :: 0 <= k < |a| ==> a[k] != 0.0
  }

  /** Elementwise quotient; exact reals have no infinity, so every divisor
      must be nonzero. */
  function Div(a: Vec, b: Vec): (r: Vec)
    requires |a| == |b| && NonZero(b)
    ensures |r| == |a|
    ensures forall k :: 0 <= k < |r| ==> r[k] == a[k] / b[k]
  {
    seq(|a|, k requires 0 <= k < |a| => a[k] / b[k])
  }

  /** A scalar divided by every element (numpy `c / a`). */
  function ScalarDiv(c: real, a: Vec): (r: Vec)
    requires NonZero(a)
    ensures |r| == |a|
    ensures forall k :: 0 <= k < |r| ==> r[k] == c / a[k]
  {
    seq(|a|, k requires 0 <= k < |a| => c / a[k])
  }

  /** Sum of all elements (numpy `ndarray.sum()` with no axis). */
  function Total(a: Vec): (r: real)
  {
    if |a| == 0 then 0.0 else a[0] + Total(a[1..])
  }

  function Dot(a: Vec, b: Vec): (r: real)
    requires |a| == |b|
  {
    Total(Mul(a, b))
  }

  /** Summation distributes over elementwise addition. */
  lemma {:induction false} TotalAdd(a: Vec, b: Vec)
    requires |a| == |b|
    ensures Total(Add(a, b)) == Total(a) + Total(b)
  {
    if |a| > 0 {
      assert Add(a, b)[1..] == Add(a[1..], b[1..]);
      TotalAdd(a[1..], b[1..]);
    }
  }

  /** Multiplication of every element by the scalar `c`. */
  function Scale(c: real, a: Vec): (r: Vec)
    ensures |r| == |a|
    ensures forall k :: 0 <= k < |a| ==> r[k] == c * a[k]
  {
    seq(|a|, k requires 0 <= k < |a| => c * a[k])
  }

  /** A constant factor comes out of a sum. */
  lemma {:induction false} TotalScale(c: real, a: Vec)
    ensures Total(Scale(c, a)) == c * Total(a)
  {
    if |a| > 0 {
      var t, u := Scale(c, a), Scale(c, a[1..]);
      forall k | 0 <= k < |u| ensures t[1..][k] == u[k] {
        assert u[k] == c * a[k + 1];
      }
      assert t[1..] == u;
      assert Total(t) == t[0] + Total(u);
      TotalScale(c, a[1..]);
      assert Total(a) == a[0] + Total(a[1..]);
      Distributes(c, a[0], Total(a[1..]));
    }
  }

  lemma Distributes(c: real, x: real, y: real)
    ensures c * (x + y) == c * x + c * y
  {
  }

  /** Multiplying by a broadcast scalar is scaling. */
  lemma MulFill(c: real, a: Vec)
    ensures Mul(Fill(|a|, c), a) == Scale(c, a)
  {
    var l, r := Mul(Fill(|a|, c), a), Scale(c, a);
    forall k | 0 <= k < |a| ensures l[k] == r[k] {
      assert Fill(|a|, c)[k] == c;
    }
  }

  /** The sum of zeros is zero. */
  lemma {:induction false} TotalZeros(n: nat)
    ensures Total(Zeros(n)) == 0.0
  {
    if n > 0 {
      assert Zeros(n)[1..] == Zeros(n - 1);
      TotalZeros(n - 1);
    }
  }

  lemma TotalSingle(x: real)
    ensures Total([x]) == x
  {
    assert [x][1..] == [];
  }

  /** The inner product with a one-element array is a product of scalars. */
  lemma DotSingle(g: Vec, s: real)
    requires |g| == 1
    ensures Dot(g, [s]) == g[0] * s
  {
    var l := Mul(g, [s]);
    assert l[0] == g[0] * s;
    assert l[1..] == [];
    assert Total(l) == l[0] + Total(l[1..]);
  }

  /** Summation of a pointwise sum, stated without naming the summands'
      construction. */
  lemma TotalPointwise(l: Vec, a: Vec, b: Vec)
    requires |l| == |a| == |b|
    requires forall k :: 0 <= k < |l| ==> l[k] == a[k] + b[k]
    ensures Total(l) == Total(a) + Total(b)
  {
    assert l == Add(a, b);
    TotalAdd(a, b);
  }

  /** The inner product is additive in its first argument. */
  lemma DotAdd(a: Vec, b: Vec, d: Vec)
    requires |a| == |b| == |d|
    ensures Dot(Add(a, b), d) == Dot(a, d) + Dot(b, d)
  {
    var l, x, y := Mul(Add(a, b), d), Mul(a, d), Mul(b, d);
    forall k | 0 <= k < |l| ensures l[k] == x[k] + y[k] {
      DistributesScalar(a[k], b[k], d[k]);
    }
    TotalPointwise(l, x, y);
  }

  lemma DistributesScalar(a: real, b: real, c: real)
    ensures (a + b) * c == a * c + b * c
  {
  }

  /** The inner product with zeros vanishes. */
  lemma DotZeros(d: Vec)
    ensures Dot(Zeros(|d|), d) == 0.0
  {
    assert Mul(Zeros(|d|), d) == Zeros(|d|);
    TotalZeros(|d|);
  }

  /** The array of `n` elements that is one at `k` and zero elsewhere. */
  function Basis(n: nat, k: nat): (r: Vec)
    ensures |r| == n
    ensures forall m :: 0 <= m < n ==> r[m] == if m == k then 1.0 else 0.0
  {
    seq(n, m => if m == k then 1.0 else 0.0)
  }

  /** The inner product with a basis array picks out one element. */
  lemma DotBasis(a: Vec, k: nat)
    requires k < |a|
    ensures Dot(a, Basis(|a|, k)) == a[k]
  {
    var s := Mul(a, Basis(|a|, k));
    TotalOneNonZero(s, k);
  }

  /** A sum with at most one nonzero element is that element. */
  lemma {:induction false} TotalOneNonZero(s: Vec, k: nat)
    requires k < |s| && forall m :: 0 <= m < |s| && m != k ==> s[m] == 0.0
    ensures Total(s) == s[k]
  {
    if k == 0 {
      assert s[1..] == Zeros(|s| - 1);
      TotalZeros(|s| - 1);
    } else {
      TotalOneNonZero(s[1..], k - 1);
    }
  }

  /** The inner product with zeros on the right vanishes. */
  lemma DotZerosRight(a: Vec)
    ensures Dot(a, Zeros(|a|)) == 0.0
  {
    assert Mul(a, Zeros(|a|)) == Zeros(|a|);
    TotalZeros(|a|);
  }

  lemma AddAssoc(a: Vec, b: Vec, c: Vec)
    requires |a| == |b| == |c|
    ensures Add(Add(a, b), c) == Add(a, Add(b, c))
  {
  }

  lemma AddZeros(a: Vec)
    ensures Add(a, Zeros(|a|)) == a && Add(Zeros(|a|), a) == a
  {
  }
}
