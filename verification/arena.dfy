/** The computation graph as an append-only arena. A `Variable` is a node id;
    a node records its value, whether it is a leaf, and for a non-leaf the
    operator and argument ids that produced it. Every argument id is smaller
    than the node's own id, so the graph is acyclic by construction. Gradients
    live in a separate table indexed by node id. */
module Arena {
  import opened Results
  import Vectors
  import Ops
  import Tables

  type Vec = Vectors.Vec

  /** How a non-leaf was produced: the operator and its argument ids. */
  datatype Provenance = Provenance(op: Ops.Op, args: seq<nat>)

  datatype Node = Node(data: Vec, isLeaf: bool, prev: Option<Provenance>)

  datatype Graph = Graph(nodes: seq<Node>, grads: Tables.Table)

  /** A graph extended by one node, and that node's id. */
  datatype Added = Added(graph: Graph, id: nat)

  predicate ArgsBelow(args: seq<nat>, bound: nat) {
    forall k :: 0 <= k < |args| ==> args[k] < bound
  }

  /** The values of the given nodes, in argument order. */
  function Inputs(nodes: seq<Node>, args: seq<nat>): (r: seq<Vec>)
    requires ArgsBelow(args, |nodes|)
    ensures |r| == |args|
    ensures forall k :: 0 <= k < |args| ==> r[k] == nodes[args[k]].data
  {
    seq(|args|, k requires 0 <= k < |args| => nodes[args[k]].data)
  }

  /** Node `i` is consistent: it is a leaf exactly when it has no provenance,
      and a non-leaf refers only to earlier nodes, whose values its operator
      accepts, and holds that operator's forward value. */
  predicate WellFormedAt(nodes: seq<Node>, i: nat)
    requires i < |nodes|
  {
    var n := nodes[i];
    && (n.isLeaf <==> n.prev.None?)
    && (n.prev.Some? ==>
          && ArgsBelow(n.prev.value.args, i)
          && Ops.Accepts(n.prev.value.op, Inputs(nodes, n.prev.value.args))
          && n.data == Ops.Forward(n.prev.value.op, Inputs(nodes, n.prev.value.args)))
  }

  predicate ValidArena(nodes: seq<Node>) {
    forall i :: 0 <= i < |nodes| ==> WellFormedAt(nodes, i)
  }

  /** The gradient table's shape: every gradient is shaped like its node. */
  function Shape(nodes: seq<Node>): (r: seq<nat>)
    ensures |r| == |nodes|
    ensures forall i :: 0 <= i < |nodes| ==> r[i] == |nodes[i].data|
  {
    seq(|nodes|, i requires 0 <= i < |nodes| => |nodes[i].data|)
  }

  predicate ValidGraph(g: Graph) {
    ValidArena(g.nodes) && Tables.Shaped(g.grads, Shape(g.nodes))
  }

  /** The graph holding no variables. */
  function Empty(): (r: Graph)
    ensures ValidGraph(r) && |r.nodes| == 0
  {
    Graph([], [])
  }

  /** Appending a node keeps every earlier node well formed. */
  lemma AppendKeepsWellFormed(nodes: seq<Node>, n: Node, i: nat)
    requires i < |nodes| && WellFormedAt(nodes, i)
    ensures WellFormedAt(nodes + [n], i)
  {
    var ext := nodes + [n];
    if nodes[i].prev.Some? {
      var pv := nodes[i].prev.value;
      assert Inputs(ext, pv.args) == Inputs(nodes, pv.args);
    }
  }

  // ---------------------------------------------------------------------
  // Variable construction and operator application
  // ---------------------------------------------------------------------

  /** A new leaf variable (`Variable.__init__`): it holds `data`, has a zero
      gradient of the same shape, is a leaf and has no provenance. Every
      existing node and gradient is kept. */
  function NewLeaf(g: Graph, data: Vec): (r: Added)
    ensures r.id == |g.nodes| && |r.graph.nodes| == |g.nodes| + 1 && |r.graph.grads| == |g.grads| + 1
    ensures r.graph.nodes[r.id].data == data
    ensures r.graph.nodes[r.id].isLeaf && r.graph.nodes[r.id].prev == None
    ensures r.graph.grads[|g.grads|] == Vectors.Zeros(|data|)
    ensures r.graph.nodes[..r.id] == g.nodes && r.graph.grads[..|g.grads|] == g.grads
  {
    Added(Graph(g.nodes + [Node(data, true, None)], g.grads + [Vectors.Zeros(|data|)]), |g.nodes|)
  }

  /** A new leaf keeps the graph well formed. */
  lemma NewLeafKeepsValid(g: Graph, data: Vec)
    requires ValidGraph(g)
    ensures ValidGraph(NewLeaf(g, data).graph)
  {
    var ext := NewLeaf(g, data).graph.nodes;
    forall i | 0 <= i < |g.nodes| ensures WellFormedAt(ext, i) {
      AppendKeepsWellFormed(g.nodes, Node(data, true, None), i);
    }
  }

  /** Operator application (`Function.__call__`). Calling an operator with
      the wrong number of arguments fails with `ArityMismatch`; binary
      operands of different lengths fail with `ShapeMismatch`. Otherwise the
      result is a new non-leaf node holding the operator's forward value,
      with a zero gradient and provenance `(op, args)`; nothing existing
      changes. Division by an array with a zero element is excluded. */
  function Apply(g: Graph, op: Ops.Op, args: seq<nat>): (r: Result<Added>)
    requires ArgsBelow(args, |g.nodes|)
    requires op == Ops.Div && |args| == 2 ==> Vectors.NonZero(g.nodes[args[1]].data)
    ensures r.Err? <==> !Ops.ShapesAgree(op, Inputs(g.nodes, args))
    ensures r.Err? ==> r.error == (if |args| != Ops.Arity(op) then ArityMismatch else ShapeMismatch)
    ensures r.Ok? ==>
      var xs, a := Inputs(g.nodes, args), r.value;
      && Ops.Accepts(op, xs)
      && a.id == |g.nodes| && |a.graph.nodes| == |g.nodes| + 1 && |a.graph.grads| == |g.grads| + 1
      && a.graph.nodes[a.id].data == Ops.Forward(op, xs)
      && !a.graph.nodes[a.id].isLeaf
      && a.graph.nodes[a.id].prev == Some(Provenance(op, args))
      && a.graph.grads[|g.grads|] == Vectors.Zeros(|Ops.Forward(op, xs)|)
      && a.graph.nodes[..a.id] == g.nodes && a.graph.grads[..|g.grads|] == g.grads
      && (ValidGraph(g) ==> ValidGraph(a.graph))
  {
    var xs := Inputs(g.nodes, args);
    if |args| != Ops.Arity(op) then Err(ArityMismatch)
    else if !Ops.ShapesAgree(op, xs) then Err(ShapeMismatch)
    else
      var y := Ops.Forward(op, xs);
      var n := Node(y, false, Some(Provenance(op, args)));
      var ext := g.nodes + [n];
      var a := Added(Graph(ext, g.grads + [Vectors.Zeros(|y|)]), |g.nodes|);
      assert Inputs(ext, args) == xs;
      if ValidGraph(g) then
        forall i | 0 <= i < |g.nodes| ensures WellFormedAt(ext, i) {
          AppendKeepsWellFormed(g.nodes, n, i);
        }
        assert WellFormedAt(ext, |g.nodes|);
        Ok(a)
      else
        Ok(a)
  }

  // The operator overloads of `Variable`, each an application of one operator.

  /** `-x` */
  function Negate(g: Graph, x: nat): (r: Result<Added>)
    requires x < |g.nodes|
    ensures r.Ok? && r.value.id < |r.value.graph.nodes|
    ensures r.Ok? ==> r.value.graph.nodes[r.value.id].data == Vectors.Neg(g.nodes[x].data)
  {
    Apply(g, Ops.Neg, [x])
  }

  /** `x1 + x2` */
  function Plus(g: Graph, x1: nat, x2: nat): (r: Result<Added>)
    requires x1 < |g.nodes| && x2 < |g.nodes|
    ensures r.Ok? <==> |g.nodes[x1].data| == |g.nodes[x2].data|
    ensures r.Ok? ==> r.value.id < |r.value.graph.nodes|
    ensures r.Ok? ==> r.value.graph.nodes[r.value.id].data == Vectors.Add(g.nodes[x1].data, g.nodes[x2].data)
  {
    Apply(g, Ops.Add, [x1, x2])
  }

  /** `x1 * x2` */
  function Times(g: Graph, x1: nat, x2: nat): (r: Result<Added>)
    requires x1 < |g.nodes| && x2 < |g.nodes|
    ensures r.Ok? <==> |g.nodes[x1].data| == |g.nodes[x2].data|
    ensures r.Ok? ==> r.value.id < |r.value.graph.nodes|
    ensures r.Ok? ==> r.value.graph.nodes[r.value.id].data == Vectors.Mul(g.nodes[x1].data, g.nodes[x2].data)
  {
    Apply(g, Ops.Mul, [x1, x2])
  }

  /** `x.sum()` */
  function SumOf(g: Graph, x: nat): (r: Result<Added>)
    requires x < |g.nodes|
    ensures r.Ok? && r.value.id < |r.value.graph.nodes|
    ensures r.Ok? ==> r.value.graph.nodes[r.value.id].data == [Vectors.Total(g.nodes[x].data)]
  {
    Apply(g, Ops.Sum, [x])
  }
}
