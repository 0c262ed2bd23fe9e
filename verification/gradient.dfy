/** What the gradients mean. Forward-mode propagation gives every node a
    tangent: a leaf's tangent is chosen freely, and a non-leaf's tangent is
    its operator's `Jvp` applied to its arguments' tangents. Reverse mode is
    correct when, for every choice of leaf tangents, the contributions that
    backward leaves in the leaves' gradients, paired with those tangents,
    give the seed paired with the root's tangent: the leaf gradients are the
    transposed derivative applied to the seed. */
module Gradient {
  import Vectors
  import Ops
  import Tables
  import opened Arena
  import opened Reverse

  type Vec = Vectors.Vec
  type Table = Tables.Table

  /** The forward-mode tangent of node `i`, given leaf tangents `d` (the
      rows of `d` at non-leaves are ignored). */
  function Tangent(nodes: seq<Node>, d: Table, i: nat): (r: Vec)
    requires ValidArena(nodes) && Tables.Shaped(d, Shape(nodes)) && i < |nodes|
    ensures |r| == |nodes[i].data|
    ensures nodes[i].isLeaf ==> r == d[i]
    decreases i, 1
  {
    if nodes[i].isLeaf then
      d[i]
    else
      assert WellFormedAt(nodes, i);
      var pv := nodes[i].prev.value;
      Ops.Jvp(pv.op, Inputs(nodes, pv.args), Tangents(nodes, d, pv.args, i))
  }

  /** The tangents of the arguments, in order. */
  function Tangents(nodes: seq<Node>, d: Table, args: seq<nat>, bound: nat): (r: seq<Vec>)
    requires ValidArena(nodes) && Tables.Shaped(d, Shape(nodes))
    requires bound <= |nodes| && ArgsBelow(args, bound)
    ensures Ops.Fits(r, Inputs(nodes, args))
    decreases bound, 0
  {
    seq(|args|, k requires 0 <= k < |args| => Tangent(nodes, d, args[k]))
  }

  /** The pairing of a gradient table with the tangents, summed over the
      leaves among the first `n` nodes. */
  function LeafDot(nodes: seq<Node>, c: Table, d: Table, n: nat): (r: real)
    requires n <= |nodes| && Tables.Shaped(c, Shape(nodes)) && Tables.Shaped(d, Shape(nodes))
  {
    if n == 0 then 0.0
    else LeafDot(nodes, c, d, n - 1) + (if nodes[n - 1].isLeaf then Vectors.Dot(c[n - 1], d[n - 1]) else 0.0)
  }

  lemma {:induction false} LeafDotAdd(nodes: seq<Node>, a: Table, b: Table, d: Table, n: nat)
    requires n <= |nodes| && Tables.Shaped(a, Shape(nodes)) && Tables.Shaped(b, Shape(nodes))
    requires Tables.Shaped(d, Shape(nodes))
    ensures Tables.Shaped(Tables.TAdd(a, b), Shape(nodes))
    ensures LeafDot(nodes, Tables.TAdd(a, b), d, n) == LeafDot(nodes, a, d, n) + LeafDot(nodes, b, d, n)
  {
    var c := Tables.TAdd(a, b);
    Tables.TAddShaped(a, b, Shape(nodes));
    if n > 0 {
      LeafDotAdd(nodes, a, b, d, n - 1);
      Vectors.DotAdd(a[n - 1], b[n - 1], d[n - 1]);
    }
  }

  lemma {:induction false} LeafDotZero(nodes: seq<Node>, d: Table, n: nat)
    requires n <= |nodes| && Tables.Shaped(d, Shape(nodes))
    ensures LeafDot(nodes, Tables.ZeroTable(Shape(nodes)), d, n) == 0.0
  {
    if n > 0 {
      LeafDotZero(nodes, d, n - 1);
      Vectors.DotZeros(d[n - 1]);
    }
  }

  /** A unit table pairs with the tangents only at its row, and only when
      that row is a leaf. */
  lemma {:induction false} LeafDotUnit(nodes: seq<Node>, i: nat, v: Vec, d: Table, n: nat)
    requires n <= |nodes| && i < |nodes| && |v| == |nodes[i].data| && Tables.Shaped(d, Shape(nodes))
    ensures LeafDot(nodes, Tables.Unit(Shape(nodes), i, v), d, n)
         == if i < n && nodes[i].isLeaf then Vectors.Dot(v, d[i]) else 0.0
  {
    if n > 0 {
      LeafDotUnit(nodes, i, v, d, n - 1);
      if n - 1 != i {
        Vectors.DotZeros(d[n - 1]);
      }
    }
  }

  /** Reverse mode computes the gradient: the contribution of backward on
      node `i` with `seed`, paired with any leaf tangents, is the seed
      paired with node `i`'s forward tangent. */
  lemma {:induction false} BackwardIsGradient(nodes: seq<Node>, i: nat, seed: Vec, d: Table)
    requires ValidArena(nodes) && i < |nodes| && |seed| == |nodes[i].data|
    requires Tables.Shaped(d, Shape(nodes))
    ensures LeafDot(nodes, Contribution(nodes, i, seed), d, |nodes|) == Vectors.Dot(seed, Tangent(nodes, d, i))
    decreases i, 1
  {
    var shape := Shape(nodes);
    var u := Tables.Unit(shape, i, seed);
    LeafDotUnit(nodes, i, seed, d, |nodes|);
    if nodes[i].isLeaf {
      LeafContribution(nodes, i, seed);
    } else {
      assert WellFormedAt(nodes, i);
      var pv := nodes[i].prev.value;
      var args, shares := ArgsOf(nodes, i), Shares(nodes, i, seed);
      ChainRule(nodes, i, seed);
      LeafDotAdd(nodes, u, Contributions(nodes, args, shares), d, |nodes|);
      ContributionsAreGradients(nodes, i, args, shares, d);
      Ops.VjpIsAdjoint(pv.op, seed, Inputs(nodes, args), Tangents(nodes, d, args, i));
    }
  }

  /** The loop over the arguments: the summed contributions pair with the
      tangents as the shares pair with the arguments' tangents. */
  lemma {:induction false} ContributionsAreGradients(nodes: seq<Node>, parent: nat, args: seq<nat>, shares: seq<Vec>, d: Table)
    requires ValidArena(nodes) && parent <= |nodes| && ArgsBelow(args, parent)
    requires SharesFit(nodes, args, shares) && Tables.Shaped(d, Shape(nodes))
    ensures LeafDot(nodes, Contributions(nodes, args, shares), d, |nodes|)
         == Ops.SumDots(shares, Tangents(nodes, d, args, parent))
    decreases parent, 0, |args|
  {
    var ts := Tangents(nodes, d, args, parent);
    if |args| == 0 {
      LeafDotZero(nodes, d, |nodes|);
    } else {
      var c0 := Contribution(nodes, args[0], shares[0]);
      var rest := Contributions(nodes, args[1..], shares[1..]);
      assert ts[1..] == Tangents(nodes, d, args[1..], parent);
      LeafDotAdd(nodes, c0, rest, d, |nodes|);
      BackwardIsGradient(nodes, args[0], shares[0], d);
      ContributionsAreGradients(nodes, parent, args[1..], shares[1..], d);
    }
  }

  /** `root.backward(seed)` on a graph: the leaf gradients, paired with any
      leaf tangents, grow by exactly the seed paired with the root's
      tangent. */
  lemma BackwardComputesGradient(g: Graph, root: nat, seed: Seed, d: Table)
    requires ValidGraph(g) && root < |g.nodes| && Tables.Shaped(d, Shape(g.nodes))
    requires seed.Dense? ==> |seed.v| == |g.nodes[root].data|
    ensures var r := Backward(g, root, seed);
      r.Ok? && ValidGraph(r.value)
      && LeafDot(g.nodes, r.value.grads, d, |g.nodes|)
         == LeafDot(g.nodes, g.grads, d, |g.nodes|)
            + Vectors.Dot(SeedArray(seed, |g.nodes[root].data|).value, Tangent(g.nodes, d, root))
  {
    var s := SeedArray(seed, |g.nodes[root].data|).value;
    LeafDotAdd(g.nodes, g.grads, Contribution(g.nodes, root, s), d, |g.nodes|);
    BackwardIsGradient(g.nodes, root, s, d);
  }
}
