/** Concrete scripts traced through the model. */
module Demo {
  import opened Results
  import Vectors
  import Ops
  import opened Arena
  import opened Reverse

  // ---------------------------------------------------------------------
  // The module's own example: `a = [1, 1]`, `b = [3, 3]`, `c = a * b`,
  // `o = c.sum()`, `o.backward()`.
  // ---------------------------------------------------------------------

  /** The arena the example builds: two leaves, their product, its sum. */
  function ProductSumNodes(): (r: seq<Node>) {
    [Node([1.0, 1.0], true, None), Node([3.0, 3.0], true, None),
     Node([3.0, 3.0], false, Some(Provenance(Ops.Mul, [0, 1]))),
     Node([6.0], false, Some(Provenance(Ops.Sum, [2])))]
  }

  /** The two leaves of the example, each with a zero gradient. */
  lemma ProductSumInputs()
    ensures var a := NewLeaf(Empty(), [1.0, 1.0]);
      var b := NewLeaf(a.graph, [3.0, 3.0]);
      a.id == 0 && b.id == 1 && b.graph == Graph(ProductSumNodes()[..2], [[0.0, 0.0], [0.0, 0.0]])
  {
    var ns := ProductSumNodes();
    assert Vectors.Zeros(2) == [0.0, 0.0];
    var a := NewLeaf(Empty(), [1.0, 1.0]);
    assert a.graph == Graph(ns[..1], [[0.0, 0.0]]);
  }

  /** The script builds the four nodes above, each with a zero gradient. */
  lemma ProductSumBuilds()
    ensures var a := NewLeaf(Empty(), [1.0, 1.0]);
      var b := NewLeaf(a.graph, [3.0, 3.0]);
      var c := Times(b.graph, a.id, b.id);
      c.Ok? &&
      var o := SumOf(c.value.graph, c.value.id);
      o.Ok? && o.value.id == 3
      && o.value.graph == Graph(ProductSumNodes(), [[0.0, 0.0], [0.0, 0.0], [0.0, 0.0], [0.0]])
  {
    var ns := ProductSumNodes();
    assert Vectors.Zeros(2) == [0.0, 0.0] && Vectors.Zeros(1) == [0.0];
    ProductSumInputs();
    var a := NewLeaf(Empty(), [1.0, 1.0]);
    var b := NewLeaf(a.graph, [3.0, 3.0]);
    assert Inputs(b.graph.nodes, [0, 1]) == [[1.0, 1.0], [3.0, 3.0]];
    assert Vectors.Mul([1.0, 1.0], [3.0, 3.0]) == [3.0, 3.0];
    var c := Times(b.graph, a.id, b.id).value;
    assert c.graph == Graph(ns[..3], [[0.0, 0.0], [0.0, 0.0], [0.0, 0.0]]);
    assert Inputs(c.graph.nodes, [2]) == [[3.0, 3.0]];
    assert Vectors.Total([3.0, 3.0]) == 6.0 by {
      assert [3.0, 3.0][1..] == [3.0];
      Vectors.TotalSingle(3.0);
    }
  }

  lemma ProductSumValid()
    ensures ValidArena(ProductSumNodes())
  {
    var nodes := ProductSumNodes();
    assert Inputs(nodes, [0, 1]) == [[1.0, 1.0], [3.0, 3.0]];
    assert Inputs(nodes, [2]) == [[3.0, 3.0]];
    assert Vectors.Mul([1.0, 1.0], [3.0, 3.0]) == [3.0, 3.0];
    assert Vectors.Total([3.0, 3.0]) == 6.0 by {
      assert [3.0, 3.0][1..] == [3.0];
      Vectors.TotalSingle(3.0);
    }
    assert WellFormedAt(nodes, 2) && WellFormedAt(nodes, 3);
  }

  /** Backward on the two leaves, as the product hands them their shares. */
  lemma ProductSumLeaves()
    ensures ValidArena(ProductSumNodes())
    ensures Backprop(ProductSumNodes(), [[0.0, 0.0], [0.0, 0.0], [1.0, 1.0], [1.0]], 0, [3.0, 3.0])
         == [[3.0, 3.0], [0.0, 0.0], [1.0, 1.0], [1.0]]
    ensures Backprop(ProductSumNodes(), [[3.0, 3.0], [0.0, 0.0], [1.0, 1.0], [1.0]], 1, [1.0, 1.0])
         == [[3.0, 3.0], [1.0, 1.0], [1.0, 1.0], [1.0]]
  {
    ProductSumValid();
    assert Vectors.Add([0.0, 0.0], [1.0, 1.0]) == [1.0, 1.0];
    assert Vectors.Add([0.0, 0.0], [3.0, 3.0]) == [3.0, 3.0];
  }

  /** Backward on the product with incoming `[1, 1]`: its shares are
      `[1, 1] * b = [3, 3]` for `a` and `[1, 1] * a = [1, 1]` for `b`. */
  lemma ProductSumProduct()
    ensures ValidArena(ProductSumNodes())
    ensures Backprop(ProductSumNodes(), [[0.0, 0.0], [0.0, 0.0], [0.0, 0.0], [1.0]], 2, [1.0, 1.0])
         == [[3.0, 3.0], [1.0, 1.0], [1.0, 1.0], [1.0]]
  {
    var nodes := ProductSumNodes();
    ProductSumLeaves();
    assert Inputs(nodes, [0, 1]) == [[1.0, 1.0], [3.0, 3.0]];
    assert Vectors.Mul([1.0, 1.0], [3.0, 3.0]) == [3.0, 3.0];
    assert Vectors.Mul([1.0, 1.0], [1.0, 1.0]) == [1.0, 1.0];
    assert Vectors.Add([0.0, 0.0], [1.0, 1.0]) == [1.0, 1.0];
    assert Shares(nodes, 2, [1.0, 1.0]) == [[3.0, 3.0], [1.0, 1.0]];
  }

  /** Backward from the sum with the default seed: the sum's VJP broadcasts
      the seed to `[1, 1]`. */
  lemma ProductSumBackprop()
    ensures ValidArena(ProductSumNodes())
    ensures Backprop(ProductSumNodes(), [[0.0, 0.0], [0.0, 0.0], [0.0, 0.0], [0.0]], 3, [1.0])
         == [[3.0, 3.0], [1.0, 1.0], [1.0, 1.0], [1.0]]
  {
    var nodes := ProductSumNodes();
    ProductSumProduct();
    assert Inputs(nodes, [2]) == [[3.0, 3.0]];
    assert Vectors.Add([0.0], [1.0]) == [1.0];
    assert Vectors.Fill(2, 1.0) == [1.0, 1.0];
    assert Shares(nodes, 3, [1.0]) == [[1.0, 1.0]];
  }

  /** The whole script: the sum is `6`; afterwards `a.grad` is `[3, 3]`,
      `b.grad` is `[1, 1]`, `c.grad` is `[1, 1]` and `o.grad` is `1`. */
  lemma ProductSumScript()
    ensures var a := NewLeaf(Empty(), [1.0, 1.0]);
      var b := NewLeaf(a.graph, [3.0, 3.0]);
      var c := Times(b.graph, a.id, b.id);
      c.Ok? &&
      var o := SumOf(c.value.graph, c.value.id);
      o.Ok? && o.value.graph.nodes[o.value.id].data == [6.0] &&
      var r := Backward(o.value.graph, o.value.id, DefaultSeed);
      r.Ok? && r.value.grads == [[3.0, 3.0], [1.0, 1.0], [1.0, 1.0], [1.0]]
  {
    ProductSumBuilds();
    ProductSumBackprop();
    assert Vectors.Fill(1, 1.0) == [1.0];
  }

  // ---------------------------------------------------------------------
  // A quotient: `q = Div()(a, b)` with `a = [4]`, `b = [2]`, `q.backward()`.
  // ---------------------------------------------------------------------

  function QuotientNodes(): (r: seq<Node>) {
    [Node([4.0], true, None), Node([2.0], true, None),
     Node([2.0], false, Some(Provenance(Ops.Div, [0, 1])))]
  }

  /** The script builds the three nodes above, each with a zero gradient. */
  lemma QuotientBuilds()
    ensures var a := NewLeaf(Empty(), [4.0]);
      var b := NewLeaf(a.graph, [2.0]);
      var q := Apply(b.graph, Ops.Div, [a.id, b.id]);
      q.Ok? && q.value.id == 2 && q.value.graph == Graph(QuotientNodes(), [[0.0], [0.0], [0.0]])
  {
    var ns := QuotientNodes();
    QuotientLeaves();
    var b := NewLeaf(NewLeaf(Empty(), [4.0]).graph, [2.0]);
    assert Inputs(b.graph.nodes, [0, 1]) == [[4.0], [2.0]];
    assert Vectors.Div([4.0], [2.0]) == [2.0];
    assert ns == ns[..2] + [ns[2]];
  }

  /** The two leaves `a = [4]` and `b = [2]`. */
  lemma QuotientLeaves()
    ensures var a := NewLeaf(Empty(), [4.0]);
      var b := NewLeaf(a.graph, [2.0]);
      a.id == 0 && b.id == 1 && b.graph == Graph(QuotientNodes()[..2], [[0.0], [0.0]])
  {
    var ns := QuotientNodes();
    assert Vectors.Zeros(1) == [0.0];
    var a := NewLeaf(Empty(), [4.0]);
    assert a.graph == Graph(ns[..1], [[0.0]]);
  }

  /** The quotient's VJP for seed `1`: `1 / b = 0.5` for `a` and
      `-a / b / b = -1` for `b`. */
  lemma QuotientShares()
    ensures ValidArena(QuotientNodes())
    ensures Shares(QuotientNodes(), 2, [1.0]) == [[0.5], [-1.0]]
  {
    var nodes := QuotientNodes();
    assert Inputs(nodes, [0, 1]) == [[4.0], [2.0]];
    assert Vectors.Div([4.0], [2.0]) == [2.0];
    assert WellFormedAt(nodes, 2);
    assert Vectors.Mul([1.0], Vectors.ScalarDiv(1.0, [2.0])) == [0.5];
    assert Vectors.Div(Vectors.Div(Vectors.Neg(Vectors.Mul([1.0], [4.0])), [2.0]), [2.0]) == [-1.0];
  }

  /** Backward from the quotient with the default seed: `a` receives
      `1 / b = 0.5` and `b` receives `-a / b / b = -1`. */
  lemma QuotientBackprop()
    ensures ValidArena(QuotientNodes())
    ensures Backprop(QuotientNodes(), [[0.0], [0.0], [0.0]], 2, [1.0]) == [[0.5], [-1.0], [1.0]]
  {
    var nodes := QuotientNodes();
    QuotientShares();
    assert Vectors.Add([0.0], [1.0]) == [1.0];
    assert Vectors.Add([0.0], [0.5]) == [0.5];
    assert Vectors.Add([0.0], [-1.0]) == [-1.0];
    assert Backprop(nodes, [[0.5], [0.0], [1.0]], 1, [-1.0]) == [[0.5], [-1.0], [1.0]];
    assert Backprop(nodes, [[0.0], [0.0], [1.0]], 0, [0.5]) == [[0.5], [0.0], [1.0]];
  }

  // ---------------------------------------------------------------------
  // Fan-out: `y = x * x` with `x = [3]`, `y.backward()`.
  // ---------------------------------------------------------------------

  function SquareNodes(): (r: seq<Node>) {
    [Node([3.0], true, None), Node([9.0], false, Some(Provenance(Ops.Mul, [0, 0])))]
  }

  lemma SquareBuilds()
    ensures var x := NewLeaf(Empty(), [3.0]);
      var y := Times(x.graph, x.id, x.id);
      y.Ok? && y.value.id == 1 && y.value.graph == Graph(SquareNodes(), [[0.0], [0.0]])
  {
    var ns := SquareNodes();
    assert Vectors.Zeros(1) == [0.0];
    var x := NewLeaf(Empty(), [3.0]);
    assert x.graph == Graph(ns[..1], [[0.0]]);
    assert Inputs(x.graph.nodes, [0, 0]) == [[3.0], [3.0]];
    assert Vectors.Mul([3.0], [3.0]) == [9.0];
  }

  /** Backward from the square: `x` is visited once per use and receives
      `3` each time, so its gradient is `6`, the derivative of `x * x`. */
  lemma SquareBackprop()
    ensures ValidArena(SquareNodes())
    ensures Backprop(SquareNodes(), [[0.0], [0.0]], 1, [1.0]) == [[6.0], [1.0]]
  {
    var nodes := SquareNodes();
    assert Inputs(nodes, [0, 0]) == [[3.0], [3.0]];
    assert Vectors.Mul([3.0], [3.0]) == [9.0];
    assert WellFormedAt(nodes, 1);
    assert Vectors.Mul([1.0], [3.0]) == [3.0];
    assert Shares(nodes, 1, [1.0]) == [[3.0], [3.0]];
    assert Vectors.Add([0.0], [1.0]) == [1.0];
    assert Vectors.Add([0.0], [3.0]) == [3.0];
    assert Vectors.Add([3.0], [3.0]) == [6.0];
    assert Backprop(nodes, [[3.0], [1.0]], 0, [3.0]) == [[6.0], [1.0]];
    assert Backprop(nodes, [[0.0], [1.0]], 0, [3.0]) == [[3.0], [1.0]];
  }

  /** The quotient script end to end. */
  lemma QuotientScript()
    ensures var a := NewLeaf(Empty(), [4.0]);
      var b := NewLeaf(a.graph, [2.0]);
      var q := Apply(b.graph, Ops.Div, [a.id, b.id]);
      q.Ok? &&
      var r := Backward(q.value.graph, q.value.id, DefaultSeed);
      r.Ok? && r.value.grads == [[0.5], [-1.0], [1.0]]
  {
    QuotientBuilds();
    QuotientBackprop();
    assert Vectors.Fill(1, 1.0) == [1.0];
  }

  /** The square script end to end. */
  lemma SquareScript()
    ensures var x := NewLeaf(Empty(), [3.0]);
      var y := Times(x.graph, x.id, x.id);
      y.Ok? &&
      var r := Backward(y.value.graph, y.value.id, DefaultSeed);
      r.Ok? && r.value.grads == [[6.0], [1.0]]
  {
    SquareBuilds();
    SquareBackprop();
    assert Vectors.Fill(1, 1.0) == [1.0];
  }
}
