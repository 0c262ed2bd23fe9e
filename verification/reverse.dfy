/** Reverse-mode differentiation by depth-first recursion (`Variable.backward`).
    Calling backward on a node with an incoming gradient `seed` adds `seed`
    to the node's own gradient and, for a non-leaf, asks its operator for the
    VJP of that same incoming `seed` and recurses into each argument in
    order with its share. Gradients accumulate by addition, so the result is
    the prior gradients plus a contribution that depends only on the node and
    the seed. */
module Reverse {
  import opened Results
  import Vectors
  import Ops
  import Tables
  import opened Arena

  type Vec = Vectors.Vec
  type Table = Tables.Table

  /** Gradient rows that match the shapes of the arguments' values. */
  predicate SharesFit(nodes: seq<Node>, args: seq<nat>, vjps: seq<Vec>)
    requires ArgsBelow(args, |nodes|)
  {
    |vjps| == |args| && forall k :: 0 <= k < |args| ==> |vjps[k]| == |nodes[args[k]].data|
  }

  /** The argument ids of a non-leaf. */
  function ArgsOf(nodes: seq<Node>, i: nat): (r: seq<nat>)
    requires ValidArena(nodes) && i < |nodes| && !nodes[i].isLeaf
    ensures ArgsBelow(r, i)
  {
    assert WellFormedAt(nodes, i);
    nodes[i].prev.value.args
  }

  /** The shares of a non-leaf's incoming gradient that go to its
      arguments: its operator's VJP, computed from the incoming gradient. */
  function Shares(nodes: seq<Node>, i: nat, seed: Vec): (r: seq<Vec>)
    requires ValidArena(nodes) && i < |nodes| && !nodes[i].isLeaf && |seed| == |nodes[i].data|
    ensures SharesFit(nodes, ArgsOf(nodes, i), r)
  {
    assert WellFormedAt(nodes, i);
    var pv := nodes[i].prev.value;
    Ops.Vjp(pv.op, seed, Inputs(nodes, pv.args))
  }

  /** The gradient table after `backward(seed)` on node `i`. The incoming
      seed is added to row `i`; only rows `0..i` can change, since every
      argument id is smaller than its node's. */
  function Backprop(nodes: seq<Node>, grads: Table, i: nat, seed: Vec): (r: Table)
    requires ValidArena(nodes) && Tables.Shaped(grads, Shape(nodes))
    requires i < |nodes| && |seed| == |nodes[i].data|
    ensures Tables.Shaped(r, Shape(nodes))
    ensures r[i] == Vectors.Add(grads[i], seed)
    ensures forall j :: i < j < |nodes| ==> r[j] == grads[j]
    ensures nodes[i].isLeaf ==> r == grads[i := Vectors.Add(grads[i], seed)]
    decreases i, 1
  {
    var bumped := grads[i := Vectors.Add(grads[i], seed)];
    if nodes[i].isLeaf then
      bumped
    else
      PropagateAll(nodes, bumped, i, ArgsOf(nodes, i), Shares(nodes, i, seed))
  }

  /** The loop over a node's arguments: backward on each argument in order,
      with its own share of the gradient. Only rows below `parent` change. */
  function PropagateAll(nodes: seq<Node>, grads: Table, parent: nat, args: seq<nat>, vjps: seq<Vec>): (r: Table)
    requires ValidArena(nodes) && Tables.Shaped(grads, Shape(nodes))
    requires parent <= |nodes| && ArgsBelow(args, parent) && SharesFit(nodes, args, vjps)
    ensures Tables.Shaped(r, Shape(nodes))
    ensures forall j :: parent <= j < |nodes| ==> r[j] == grads[j]
    decreases parent, 0, |args|
  {
    if |args| == 0 then
      grads
    else
      PropagateAll(nodes, Backprop(nodes, grads, args[0], vjps[0]), parent, args[1..], vjps[1..])
  }

  /** What backward on node `i` with `seed` adds to the gradient table:
      its effect on the all-zero table. */
  function Contribution(nodes: seq<Node>, i: nat, seed: Vec): (r: Table)
    requires ValidArena(nodes) && i < |nodes| && |seed| == |nodes[i].data|
    ensures Tables.Shaped(r, Shape(nodes))
  {
    Backprop(nodes, Tables.ZeroTable(Shape(nodes)), i, seed)
  }

  /** The summed contributions of backward on each argument with its share. */
  function Contributions(nodes: seq<Node>, args: seq<nat>, vjps: seq<Vec>): (r: Table)
    requires ValidArena(nodes) && ArgsBelow(args, |nodes|) && SharesFit(nodes, args, vjps)
    ensures Tables.Shaped(r, Shape(nodes))
  {
    if |args| == 0 then
      Tables.ZeroTable(Shape(nodes))
    else
      Tables.TAdd(Contribution(nodes, args[0], vjps[0]), Contributions(nodes, args[1..], vjps[1..]))
  }

  // ---------------------------------------------------------------------
  // Accumulation is additive
  // ---------------------------------------------------------------------

  /** Backward adds a contribution that does not depend on the gradients
      already accumulated: `Backprop(G, i, s) == G + Contribution(i, s)`. */
  lemma {:induction false} BackpropAdditive(nodes: seq<Node>, grads: Table, i: nat, seed: Vec)
    requires ValidArena(nodes) && Tables.Shaped(grads, Shape(nodes))
    requires i < |nodes| && |seed| == |nodes[i].data|
    ensures Backprop(nodes, grads, i, seed) == Tables.TAdd(grads, Contribution(nodes, i, seed))
    decreases i, 1
  {
    var shape := Shape(nodes);
    var z := Tables.ZeroTable(shape);
    var u := Tables.Unit(shape, i, seed);
    Vectors.AddZeros(seed);
    assert z[i := Vectors.Add(z[i], seed)] == u;
    Tables.UpdateIsTAddUnit(grads, shape, i, seed);
    var bumped := Tables.TAdd(grads, u);
    if !nodes[i].isLeaf {
      var args, vjps := ArgsOf(nodes, i), Shares(nodes, i, seed);
      var cs := Contributions(nodes, args, vjps);
      Tables.TAddShaped(grads, u, shape);
      PropagateAdditive(nodes, bumped, i, args, vjps);
      PropagateAdditive(nodes, u, i, args, vjps);
      Tables.TAddAssoc(grads, u, cs, shape);
    }
  }

  /** The loop over the arguments adds the sum of their contributions. */
  lemma {:induction false} PropagateAdditive(nodes: seq<Node>, grads: Table, parent: nat, args: seq<nat>, vjps: seq<Vec>)
    requires ValidArena(nodes) && Tables.Shaped(grads, Shape(nodes))
    requires parent <= |nodes| && ArgsBelow(args, parent) && SharesFit(nodes, args, vjps)
    ensures PropagateAll(nodes, grads, parent, args, vjps) == Tables.TAdd(grads, Contributions(nodes, args, vjps))
    decreases parent, 0, |args|
  {
    var shape := Shape(nodes);
    if |args| == 0 {
      Tables.TAddZero(grads, shape);
    } else {
      var first := Backprop(nodes, grads, args[0], vjps[0]);
      var c0 := Contribution(nodes, args[0], vjps[0]);
      var rest := Contributions(nodes, args[1..], vjps[1..]);
      PropagateAdditive(nodes, first, parent, args[1..], vjps[1..]);
      BackpropAdditive(nodes, grads, args[0], vjps[0]);
      Tables.TAddAssoc(grads, c0, rest, shape);
    }
  }

  /** The chain rule as the traversal applies it: the contribution of a
      non-leaf is its seed in its own row plus, for each argument in order,
      the contribution of that argument with its VJP share of the same
      incoming seed. */
  lemma ChainRule(nodes: seq<Node>, i: nat, seed: Vec)
    requires ValidArena(nodes) && i < |nodes| && |seed| == |nodes[i].data| && !nodes[i].isLeaf
    ensures Contribution(nodes, i, seed)
         == Tables.TAdd(Tables.Unit(Shape(nodes), i, seed),
                        Contributions(nodes, ArgsOf(nodes, i), Shares(nodes, i, seed)))
  {
    var shape := Shape(nodes);
    var z := Tables.ZeroTable(shape);
    Vectors.AddZeros(seed);
    assert z[i := Vectors.Add(z[i], seed)] == Tables.Unit(shape, i, seed);
    PropagateAdditive(nodes, Tables.Unit(shape, i, seed), i, ArgsOf(nodes, i), Shares(nodes, i, seed));
  }

  /** The contribution of a leaf is its seed in its own row and nothing else. */
  lemma LeafContribution(nodes: seq<Node>, i: nat, seed: Vec)
    requires ValidArena(nodes) && i < |nodes| && |seed| == |nodes[i].data| && nodes[i].isLeaf
    ensures Contribution(nodes, i, seed) == Tables.Unit(Shape(nodes), i, seed)
  {
    var z := Tables.ZeroTable(Shape(nodes));
    Vectors.AddZeros(seed);
    assert z[i := Vectors.Add(z[i], seed)] == Tables.Unit(Shape(nodes), i, seed);
  }

  // ---------------------------------------------------------------------
  // The contribution is linear in the seed
  // ---------------------------------------------------------------------

  /** Argument-wise sum of two lists of gradient shares. */
  function AddShares(v1: seq<Vec>, v2: seq<Vec>): (r: seq<Vec>)
    requires |v1| == |v2| && forall k :: 0 <= k < |v1| ==> |v1[k]| == |v2[k]|
    ensures |r| == |v1| && forall k :: 0 <= k < |r| ==> r[k] == Vectors.Add(v1[k], v2[k])
  {
    seq(|v1|, k requires 0 <= k < |v1| => Vectors.Add(v1[k], v2[k]))
  }

  /** Backward with the sum of two seeds contributes the sum of the two
      contributions. */
  lemma {:induction false} ContributionLinear(nodes: seq<Node>, i: nat, s1: Vec, s2: Vec)
    requires ValidArena(nodes) && i < |nodes| && |s1| == |s2| == |nodes[i].data|
    ensures Contribution(nodes, i, Vectors.Add(s1, s2))
         == Tables.TAdd(Contribution(nodes, i, s1), Contribution(nodes, i, s2))
    decreases i, 1
  {
    var shape := Shape(nodes);
    var s := Vectors.Add(s1, s2);
    Tables.UnitAdd(shape, i, s1, s2);
    if nodes[i].isLeaf {
      LeafContribution(nodes, i, s);
      LeafContribution(nodes, i, s1);
      LeafContribution(nodes, i, s2);
    } else {
      assert WellFormedAt(nodes, i);
      var pv := nodes[i].prev.value;
      var args := ArgsOf(nodes, i);
      var v, v1, v2 := Shares(nodes, i, s), Shares(nodes, i, s1), Shares(nodes, i, s2);
      Ops.VjpLinear(pv.op, s1, s2, Inputs(nodes, args));
      assert v == AddShares(v1, v2);
      ChainRule(nodes, i, s);
      ChainRule(nodes, i, s1);
      ChainRule(nodes, i, s2);
      ContributionsLinear(nodes, i, args, v1, v2);
      Tables.TAddSwapMiddle(Tables.Unit(shape, i, s1), Tables.Unit(shape, i, s2),
                            Contributions(nodes, args, v1), Contributions(nodes, args, v2), shape);
    }
  }

  lemma {:induction false} ContributionsLinear(nodes: seq<Node>, parent: nat, args: seq<nat>, v1: seq<Vec>, v2: seq<Vec>)
    requires ValidArena(nodes) && parent <= |nodes| && ArgsBelow(args, parent)
    requires SharesFit(nodes, args, v1) && SharesFit(nodes, args, v2)
    ensures Contributions(nodes, args, AddShares(v1, v2))
         == Tables.TAdd(Contributions(nodes, args, v1), Contributions(nodes, args, v2))
    decreases parent, 0, |args|
  {
    var shape := Shape(nodes);
    var w := AddShares(v1, v2);
    if |args| == 0 {
      Tables.TAddZero(Tables.ZeroTable(shape), shape);
    } else {
      assert w[1..] == AddShares(v1[1..], v2[1..]);
      ContributionLinear(nodes, args[0], v1[0], v2[0]);
      ContributionsLinear(nodes, parent, args[1..], v1[1..], v2[1..]);
      Tables.TAddSwapMiddle(Contribution(nodes, args[0], v1[0]), Contribution(nodes, args[0], v2[0]),
                            Contributions(nodes, args[1..], v1[1..]), Contributions(nodes, args[1..], v2[1..]), shape);
    }
  }

  /** A zero seed contributes nothing. */
  lemma ContributionZero(nodes: seq<Node>, i: nat)
    requires ValidArena(nodes) && i < |nodes|
    ensures Contribution(nodes, i, Vectors.Zeros(|nodes[i].data|)) == Tables.ZeroTable(Shape(nodes))
  {
    var z := Vectors.Zeros(|nodes[i].data|);
    Vectors.AddZeros(z);
    ContributionLinear(nodes, i, z, z);
    Tables.TAddSelf(Contribution(nodes, i, z), Shape(nodes));
  }

  /** A variable used twice as an argument receives the sum of its two
      shares. */
  lemma FanOut(nodes: seq<Node>, a: nat, v0: Vec, v1: Vec)
    requires ValidArena(nodes) && a < |nodes| && |v0| == |v1| == |nodes[a].data|
    ensures Contributions(nodes, [a, a], [v0, v1]) == Contribution(nodes, a, Vectors.Add(v0, v1))
  {
    var shape := Shape(nodes);
    var c0, c1 := Contribution(nodes, a, v0), Contribution(nodes, a, v1);
    assert [a, a][1..] == [a] && [v0, v1][1..] == [v1];
    assert [a][1..] == [] && [v1][1..] == [];
    assert Contributions(nodes, [a], [v1]) == Tables.TAdd(c1, Tables.ZeroTable(shape));
    Tables.TAddZero(c1, shape);
    assert Contributions(nodes, [a, a], [v0, v1]) == Tables.TAdd(c0, c1);
    ContributionLinear(nodes, a, v0, v1);
  }

  // ---------------------------------------------------------------------
  // Only ancestors change
  // ---------------------------------------------------------------------

  /** Node `j` is node `i` or one of its ancestors: it can be reached by
      following provenance edges from `i`. */
  predicate Reaches(nodes: seq<Node>, i: nat, j: nat)
    requires ValidArena(nodes) && i < |nodes|
    decreases i
  {
    i == j
    || (!nodes[i].isLeaf
        && var args := ArgsOf(nodes, i);
           exists k :: 0 <= k < |args| && Reaches(nodes, args[k], j))
  }

  /** Backward on node `i` leaves the gradient of every node that is neither
      `i` nor one of its ancestors unchanged. */
  lemma {:induction false} ContributionOutsideAncestors(nodes: seq<Node>, i: nat, seed: Vec, j: nat)
    requires ValidArena(nodes) && i < |nodes| && |seed| == |nodes[i].data|
    requires j < |nodes| && !Reaches(nodes, i, j)
    ensures Contribution(nodes, i, seed)[j] == Vectors.Zeros(|nodes[j].data|)
    decreases i, 1
  {
    var shape := Shape(nodes);
    if nodes[i].isLeaf {
      LeafContribution(nodes, i, seed);
    } else {
      var args, shares := ArgsOf(nodes, i), Shares(nodes, i, seed);
      ChainRule(nodes, i, seed);
      ContributionsOutsideAncestors(nodes, i, args, shares, j);
      Vectors.AddZeros(Vectors.Zeros(shape[j]));
    }
  }

  lemma {:induction false} ContributionsOutsideAncestors(nodes: seq<Node>, parent: nat, args: seq<nat>, shares: seq<Vec>, j: nat)
    requires ValidArena(nodes) && parent <= |nodes| && ArgsBelow(args, parent) && SharesFit(nodes, args, shares)
    requires j < |nodes| && forall k :: 0 <= k < |args| ==> !Reaches(nodes, args[k], j)
    ensures Contributions(nodes, args, shares)[j] == Vectors.Zeros(|nodes[j].data|)
    decreases parent, 0, |args|
  {
    if |args| > 0 {
      ContributionOutsideAncestors(nodes, args[0], shares[0], j);
      ContributionsOutsideAncestors(nodes, parent, args[1..], shares[1..], j);
      Vectors.AddZeros(Vectors.Zeros(|nodes[j].data|));
    }
  }

  // ---------------------------------------------------------------------
  // The public entry point
  // ---------------------------------------------------------------------

  /** The gradient passed to `backward`: a scalar (the default is `1.0`),
      broadcast to the root's shape, or an array of the root's shape. */
  datatype Seed = Scalar(c: real) | Dense(v: Vec)

  const DefaultSeed: Seed := Scalar(1.0)

  /** The seed as an array of `n` elements; an array of another length
      cannot be added to the root's gradient. */
  function SeedArray(seed: Seed, n: nat): (r: Result<Vec>)
    ensures r.Ok? <==> seed.Scalar? || |seed.v| == n
    ensures r.Err? ==> r.error == ShapeMismatch
    ensures r.Ok? ==> |r.value| == n
    ensures r.Ok? && seed.Scalar? ==> forall k :: 0 <= k < n ==> r.value[k] == seed.c
    ensures r.Ok? && seed.Dense? ==> r.value == seed.v
  {
    match seed
    case Scalar(c) => Ok(Vectors.Fill(n, c))
    case Dense(v) => if |v| == n then Ok(v) else Err(ShapeMismatch)
  }

  /** `root.backward(seed)`: every gradient gains the root's contribution for
      the seed; the nodes (values, leaf flags, provenance) are untouched. */
  function Backward(g: Graph, root: nat, seed: Seed): (r: Result<Graph>)
    requires ValidGraph(g) && root < |g.nodes|
    ensures r.Err? <==> seed.Dense? && |seed.v| != |g.nodes[root].data|
    ensures r.Err? ==> r.error == ShapeMismatch
    ensures r.Ok? ==> r.value.nodes == g.nodes && ValidGraph(r.value)
    ensures r.Ok? ==>
      var s := SeedArray(seed, |g.nodes[root].data|).value;
      r.value.grads == Tables.TAdd(g.grads, Contribution(g.nodes, root, s))
  {
    match SeedArray(seed, |g.nodes[root].data|)
    case Err(e) => Err(e)
    case Ok(s) =>
      BackpropAdditive(g.nodes, g.grads, root, s);
      Ok(Graph(g.nodes, Backprop(g.nodes, g.grads, root, s)))
  }

  /** Calling backward twice with the same seed accumulates the
      contribution twice: the prior gradients plus the contribution of the
      doubled seed. */
  lemma BackwardTwice(g: Graph, root: nat, seed: Seed)
    requires ValidGraph(g) && root < |g.nodes|
    requires seed.Dense? ==> |seed.v| == |g.nodes[root].data|
    ensures var once := Backward(g, root, seed);
      once.Ok? && Backward(once.value, root, seed).Ok?
      && var s := SeedArray(seed, |g.nodes[root].data|).value;
         Backward(once.value, root, seed).value.grads
           == Tables.TAdd(g.grads, Contribution(g.nodes, root, Vectors.Add(s, s)))
  {
    var shape := Shape(g.nodes);
    var s := SeedArray(seed, |g.nodes[root].data|).value;
    var c := Contribution(g.nodes, root, s);
    ContributionLinear(g.nodes, root, s, s);
    Tables.TAddAssoc(g.grads, c, c, shape);
  }

  /** `root.backward(seed)` changes only the gradients of the root and its
      ancestors. */
  lemma BackwardOnlyAncestors(g: Graph, root: nat, seed: Seed, j: nat)
    requires ValidGraph(g) && root < |g.nodes| && j < |g.nodes| && !Reaches(g.nodes, root, j)
    ensures var r := Backward(g, root, seed);
      r.Ok? ==> r.value.grads[j] == g.grads[j]
  {
    var r := Backward(g, root, seed);
    if r.Ok? {
      var s := SeedArray(seed, |g.nodes[root].data|).value;
      ContributionOutsideAncestors(g.nodes, root, s, j);
      Vectors.AddZeros(g.grads[j]);
    }
  }
}
