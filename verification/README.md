# Reverse-mode autodiff arena, modelled in Dafny

This project models the core of a small reverse-mode automatic
differentiation engine written in Python on top of numpy
(`prototype_arrays.py`). In that engine a `Variable` wraps an array, an
accumulated gradient of the same shape, a leaf flag, and for a derived value
the `Function` that produced it and its argument variables. Calling an
operator (`Neg`, `Sum`, `Add`, `Sub`, `Mul`, `Div`) computes its forward value
eagerly and records that provenance. `Variable.backward(grad)` adds `grad` to
the variable's own gradient. For a non-leaf it then asks the operator for the
vector-Jacobian product (VJP) of that same incoming `grad` and recurses into
each argument in order with its share.

The model represents the graph as an append-only arena
(`Arena.Graph`). Node `i` may only refer to argument ids below `i`, so the
graph is acyclic by construction. Gradients live in a table with one row per
node. Arrays are flat sequences of exact reals (`Vectors.Vec`). A
zero-dimensional value (a sum, a leaf built from a 0-d array, or any
operator result whose operands are all zero-dimensional) is a one-element
array.

Modules, in dependency order:

- `Results` (results.dfy): `Option`, `Result` and the two error conditions.
- `Vectors` (vectors.dfy): elementwise arithmetic, sums and inner products.
- `Tables` (tables.dfy): gradient tables and their row-wise sum.
- `Ops` (ops.dfy): each operator's forward rule (`f`) and VJP (`vjp`).
  It also has a forward-mode tangent rule `Jvp`, an independent reference
  for the derivative, tied to `Forward` by an exact difference quotient.
- `Arena` (arena.dfy): nodes, well-formedness, leaf creation
  (`Variable.__init__`), operator application (`Function.__call__`) and the
  operator sugar on `Variable`.
- `Reverse` (reverse.dfy): `Variable.backward` as a recursive function on the
  gradient table, plus its algebra (additivity, chain rule, linearity,
  fan-out).
- `Gradient` (gradient.dfy): the correctness theorem. For every choice of
  leaf tangents, the leaf gradients that backward adds, paired with those
  tangents, equal the seed paired with the root's forward tangent. In
  other words, backward computes the transposed derivative applied to the
  seed.
- `Demo` (demo.dfy): the module's own example and two more scripts, each
  traced to its exact gradients.

## Model

| member | source | states |
|---|---|---|
| Ops.Forward | prototype_arrays.py:75-151 | each operator's `f` gives a result as long as its operands, except `Sum`, which reduces to one element; `Ops.ForwardDifference` ties the values to the tangent rule |
| Ops.Vjp | prototype_arrays.py:67-70 | every VJP returns one gradient per operand, each with the operand's length |
| Ops.VjpIsAdjoint | prototype_arrays.py:73-161 | each operator's VJP is the adjoint of its tangent rule: `<g, Jvp(ds)> == sum_i <vjp_i(g), ds_i>` for every seed and tangent |
| Ops.VjpUnique | prototype_arrays.py:83-161 | conversely, any per-operand gradients that pair with every tangent as `g` pairs with the tangent rule are exactly the VJP; so each operator's VJP is determined by its derivative alone, and with `Ops.VjpIsAdjoint` a candidate satisfies the adjoint identity if and only if it equals the VJP |
| Ops.ForwardDifference | prototype_arrays.py:73-151 | moving the operands a step `t` along tangents moves the forward value by exactly `t` times the difference quotient |
| Ops.DiffQuotAtZero | prototype_arrays.py:73-151 | at step zero the operands do not move, and the difference quotient's closed form equals the tangent rule |
| Ops.DiffQuotRemainder | prototype_arrays.py:73-151 | on every step with `2 * abs(t * d2) <= abs(x2)` at each divisor element, the moved operands are accepted and the difference quotient differs from the tangent rule by at most `abs(t)` times a bound that does not depend on `t`: zero for the linear operators, `abs(d1 * d2)` for the product, `2 * abs(h * d2 / x2) / abs(x2)` for the quotient |
| Ops.JvpIsDerivative | prototype_arrays.py:73-151 | there is a positive radius within which every step satisfies that bound: 1 without a divisor, the least `abs(x2) / (2 * abs(d2) + 1)` for the quotient. So the difference quotient tends to `Jvp` as `t` tends to zero, and `Jvp` is the derivative of `Forward` |
| Ops.VjpLinear | prototype_arrays.py:83-161 | every VJP is linear in the incoming gradient |
| Ops.VjpZero | prototype_arrays.py:83-161 | a zero incoming gradient gives zero gradients for every operand |
| Arena.NewLeaf | prototype_arrays.py:8-13 | a new variable holds its data and a zero gradient of the same length, is a leaf, has no provenance, and leaves existing nodes and gradients unchanged |
| Arena.NewLeafKeepsValid | prototype_arrays.py:8-13 | creating a leaf keeps every node well formed and every gradient shaped like its node |
| Arena.Apply | prototype_arrays.py:51-56 | fails exactly when the arguments do not fit the operator: wrong arity gives `ArityMismatch`, unequal operand lengths give `ShapeMismatch`. Otherwise it appends a non-leaf holding the forward value with a zero gradient and provenance `(op, args)`, keeps every earlier node and gradient, and preserves well-formedness, acyclicity included |
| Arena.Negate | prototype_arrays.py:36-37 | `-x` always succeeds and holds the elementwise negation |
| Arena.Plus | prototype_arrays.py:39-40 | `x1 + x2` succeeds exactly when the lengths agree and holds the elementwise sum |
| Arena.Times | prototype_arrays.py:42-43 | `x1 * x2` succeeds exactly when the lengths agree and holds the elementwise product |
| Arena.SumOf | prototype_arrays.py:45-46 | `x.sum()` always succeeds and holds the one-element total |
| Reverse.Shares | prototype_arrays.py:21-23 | a non-leaf's operator VJP of the incoming gradient gives exactly one share per argument, each as long as that argument's data |
| Reverse.Backprop | prototype_arrays.py:15-33 | backward adds the seed to the node's own row and never touches rows of later nodes; on a leaf it changes nothing else |
| Reverse.PropagateAll | prototype_arrays.py:25-33 | the loop over the arguments only changes rows below the parent node |
| Reverse.BackpropAdditive | prototype_arrays.py:15-33 | backward adds a contribution that depends only on the node and the seed, not on the gradients already accumulated |
| Reverse.PropagateAdditive | prototype_arrays.py:25-33 | the loop over the arguments adds the sum of the arguments' contributions |
| Reverse.ChainRule | prototype_arrays.py:20-33 | a non-leaf's contribution is its seed in its own row plus each argument's contribution for its VJP share of the same incoming seed |
| Reverse.LeafContribution | prototype_arrays.py:17-20 | a leaf's contribution is its seed in its own row and zero elsewhere |
| Reverse.ContributionLinear | prototype_arrays.py:15-33 | the contribution of a sum of seeds is the sum of the contributions |
| Reverse.ContributionsLinear | prototype_arrays.py:25-33 | the same linearity for the loop over arguments with summed shares |
| Reverse.ContributionZero | prototype_arrays.py:15-33 | a zero seed contributes nothing anywhere |
| Reverse.FanOut | prototype_arrays.py:25-33 | a variable used twice as an argument receives the contribution of the sum of its two shares |
| Reverse.ContributionOutsideAncestors | prototype_arrays.py:15-33 | backward on a node contributes zero to every node that is neither that node nor one of its ancestors |
| Reverse.ContributionsOutsideAncestors | prototype_arrays.py:25-33 | the loop over the arguments contributes zero to every node reachable from none of them |
| Reverse.BackwardOnlyAncestors | prototype_arrays.py:15-33 | `root.backward(seed)` leaves the gradient of every node other than the root and its ancestors unchanged |
| Reverse.SeedArray | prototype_arrays.py:15-17 | a scalar seed is broadcast to the root's length; an array seed is used as is when its length matches and fails with `ShapeMismatch` otherwise |
| Reverse.Backward | prototype_arrays.py:15-33 | in the model, `backward(seed)` fails exactly when an array seed has the wrong length (the shape failures and the recursion-depth failure this leaves out are listed below). Otherwise the nodes (data, leaf flags, provenance) are unchanged, the graph stays valid, and every gradient gains the root's contribution |
| Reverse.BackwardTwice | prototype_arrays.py:15-17 | calling backward twice with one seed adds the contribution of the doubled seed |
| Gradient.BackwardIsGradient | prototype_arrays.py:15-33 | for every choice of leaf tangents, the contribution paired with them over the leaves equals the seed paired with the node's forward tangent |
| Gradient.ContributionsAreGradients | prototype_arrays.py:25-33 | the summed argument contributions pair with the leaf tangents as the VJP shares pair with the arguments' tangents |
| Gradient.BackwardComputesGradient | prototype_arrays.py:15-33 | on a graph, the leaf gradients paired with any tangents grow by exactly the seed paired with the root's tangent |
| Demo.ProductSumBuilds | prototype_arrays.py:181-185 | the example builds leaves `[1, 1]` and `[3, 3]`, their product `[3, 3]` and its sum `6` |
| Demo.ProductSumBackprop | prototype_arrays.py:188-192 | backward from that sum with seed `1` leaves gradients `[3, 3]`, `[1, 1]`, `[1, 1]` and `1` |
| Demo.ProductSumScript | prototype_arrays.py:181-192 | the whole example end to end: sum `6`, `a.grad == [3, 3]`, `b.grad == [1, 1]`, `c.grad == [1, 1]`, `o.grad == 1` |
| Demo.QuotientScript | prototype_arrays.py:148-161 | for `a = [4]`, `b = [2]`, backward from `Div()(a, b)` gives `a.grad == [0.5]` and `b.grad == [-1]` |
| Demo.SquareScript | prototype_arrays.py:15-33 | for `x = [3]`, backward from `x * x` visits `x` once per use and gives `x.grad == [6]` |

## Left out

- `Tanh` (prototype_arrays.py:164-174) is not modelled. The hyperbolic tangent has no exact-real definition to state its rule against.
- The `jac` methods are not modelled. They materialise full Jacobians, and backward never uses them. The forward-mode rule `Ops.Jvp` stands in as the reference for the derivative.
- Floating point: values are exact reals, so there is no rounding, infinity or NaN.
- Arena.Apply: requires every divisor element of `Div` to be nonzero. numpy would yield infinities or NaN with a warning, and exact reals have no such values.
- Broadcasting: binary operands must have equal lengths. numpy would also broadcast length-1 or otherwise compatible shapes; the model reports `ShapeMismatch` instead. Multi-dimensional shapes are flattened.
- Reverse.SeedArray: an array seed must match the root's length exactly. numpy's broadcasting of a length-1 array seed is not modelled.
- The `Sum` VJP broadcasts the scalar seed to the operand's length explicitly. The source returns the scalar and relies on numpy broadcasting in `grad += ...` and in the next VJP. Every downstream rule is elementwise, so the gradients are the same.
- The VJP's `result` parameter is unused by every rule and is not modelled.
- Integer arrays are not modelled. For those, `zeros_like` gives an integer gradient that cannot accumulate floats in place.
- Object identity and in-place mutation are not modelled. A `Variable` is a node id in one arena, and backward returns the updated gradient table.
- Traversal cost is not modelled. The recursion re-walks shared ancestors once per path. The model computes exactly the same table, and the additivity lemmas show why re-walking is still correct.
- Reverse.Backward: a zero-dimensional value (a sum, a leaf built from a 0-d array, or any operator result whose operands are all zero-dimensional, such as `-(x.sum())` or `s1 * s2` for sums `s1` and `s2`; the `zeros_like` gradient of each, at prototype_arrays.py:10, is 0-d too) and a one-element array are stored alike, so the model accepts graphs and seeds that numpy rejects at the in-place `self.grad += grad` (prototype_arrays.py:17). Two examples: a 0-d value's gradient receiving a one-element share from a product or quotient whose other operand has length 1 (for a 0-d leaf `x` and `y = [3]`, `(x * y).backward()`; likewise for `x = [1, 2]`, `y = [3]` and `(-(x.sum()) * y).backward()`), and a one-element array seed passed to a 0-d value's `backward`. numpy raises `ValueError` there, in the first case part-way through the traversal after some gradients have already changed. Neither failure is modelled: in the model the only failure is the seed-length check, which happens before any gradient changes.
- Reverse.Backward: the source recurses once per level of the graph (prototype_arrays.py:33), and Python's default recursion limit is 1000 frames. A chain about that deep, such as `acc = acc + x` repeated 1000 times followed by `acc.backward()`, raises `RecursionError` part-way through the traversal, after some gradients have already changed. The model's recursion has no depth bound and returns `Ok` there.
- `Sub` and `Div` have no operator sugar on `Variable`. They are reached as `Arena.Apply(g, Ops.Sub, ...)`, mirroring `Sub()(a, b)`.
- The `print` calls of the example script are not modelled; its printed values are the conclusions of `Demo.ProductSumScript`.
