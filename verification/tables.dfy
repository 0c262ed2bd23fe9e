/** Gradient tables: one array per node of the arena, indexed by node id.
    A table's shape is the list of its rows' lengths. */
module Tables {
  import opened Vectors

  type Table = seq<Vec>

  predicate Shaped(t: Table, shape: seq<nat>) {
    |t| == |shape| && forall j :: 0 <= j < |t| ==> |t[j]| == shape[j]
  }

  /** The all-zero table of a shape. */
  function ZeroTable(shape: seq<nat>): (r: Table)
    ensures Shaped(r, shape)
    ensures forall j :: 0 <= j < |r| ==> r[j] == Zeros(shape[j])
  {
    seq(|shape|, j requires 0 <= j < |shape| => Zeros(shape[j]))
  }

  /** Row-by-row elementwise sum of two tables of one shape. */
  function TAdd(a: Table, b: Table): (r: Table)
    requires |a| == |b| && forall j :: 0 <= j < |a| ==> |a[j]| == |b[j]|
    ensures |r| == |a|
    ensures forall j :: 0 <= j < |r| ==> r[j] == Add(a[j], b[j])
  {
    seq(|a|, j requires 0 <= j < |a| => Add(a[j], b[j]))
  }

  /** The zero table with row `i` replaced by `v`. */
  function Unit(shape: seq<nat>, i: nat, v: Vec): (r: Table)
    requires i < |shape| && |v| == shape[i]
    ensures Shaped(r, shape)
  {
    ZeroTable(shape)[i := v]
  }

  lemma TAddShaped(a: Table, b: Table, shape: seq<nat>)
    requires Shaped(a, shape) && Shaped(b, shape)
    ensures Shaped(TAdd(a, b), shape)
  {
  }

  lemma TAddAssoc(a: Table, b: Table, c: Table, shape: seq<nat>)
    requires Shaped(a, shape) && Shaped(b, shape) && Shaped(c, shape)
    ensures TAdd(TAdd(a, b), c) == TAdd(a, TAdd(b, c))
  {
    forall j | 0 <= j < |a| ensures TAdd(TAdd(a, b), c)[j] == TAdd(a, TAdd(b, c))[j] {
      AddAssoc(a[j], b[j], c[j]);
    }
  }

  lemma TAddZero(a: Table, shape: seq<nat>)
    requires Shaped(a, shape)
    ensures TAdd(a, ZeroTable(shape)) == a
    ensures TAdd(ZeroTable(shape), a) == a
  {
    forall j | 0 <= j < |a|
      ensures TAdd(a, ZeroTable(shape))[j] == a[j] && TAdd(ZeroTable(shape), a)[j] == a[j]
    {
      AddZeros(a[j]);
    }
  }

  /** Adding `v` into row `i` is adding the unit table carrying `v` there. */
  lemma UpdateIsTAddUnit(a: Table, shape: seq<nat>, i: nat, v: Vec)
    requires Shaped(a, shape) && i < |shape| && |v| == shape[i]
    ensures a[i := Add(a[i], v)] == TAdd(a, Unit(shape, i, v))
  {
    forall j | 0 <= j < |a| ensures a[i := Add(a[i], v)][j] == TAdd(a, Unit(shape, i, v))[j] {
      if j != i {
        AddZeros(a[j]);
      }
    }
  }

  /** (a + b) + (c + d) == (a + c) + (b + d). */
  lemma TAddSwapMiddle(a: Table, b: Table, c: Table, d: Table, shape: seq<nat>)
    requires Shaped(a, shape) && Shaped(b, shape) && Shaped(c, shape) && Shaped(d, shape)
    ensures TAdd(TAdd(a, b), TAdd(c, d)) == TAdd(TAdd(a, c), TAdd(b, d))
  {
    forall j | 0 <= j < |a|
      ensures TAdd(TAdd(a, b), TAdd(c, d))[j] == TAdd(TAdd(a, c), TAdd(b, d))[j]
    {
    }
  }

  /** Unit tables add in their one nonzero row. */
  lemma UnitAdd(shape: seq<nat>, i: nat, a: Vec, b: Vec)
    requires i < |shape| && |a| == shape[i] && |b| == shape[i]
    ensures Unit(shape, i, Add(a, b)) == TAdd(Unit(shape, i, a), Unit(shape, i, b))
  {
    var l, r := Unit(shape, i, Add(a, b)), TAdd(Unit(shape, i, a), Unit(shape, i, b));
    forall j | 0 <= j < |shape| ensures l[j] == r[j] {
      if j != i {
        AddZeros(Zeros(shape[j]));
      }
    }
  }

  /** A table that is its own double is zero. */
  lemma TAddSelf(a: Table, shape: seq<nat>)
    requires Shaped(a, shape) && TAdd(a, a) == a
    ensures a == ZeroTable(shape)
  {
    forall j | 0 <= j < |a| ensures a[j] == ZeroTable(shape)[j] {
      assert Add(a[j], a[j]) == a[j];
      forall k | 0 <= k < |a[j]| ensures a[j][k] == 0.0 {
        assert Add(a[j], a[j])[k] == a[j][k] + a[j][k];
      }
    }
  }
}
