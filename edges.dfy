/** `getEdgeIdxAttr`: a dense adjacency tensor of rank 2 or 3 turned into
    the coordinates of its nonzero entries (in row-major order, one index row
    per dimension) and the values found there. */
module SparseEdges {
  import opened Lists
  import opened Arith

  /** A torch tensor: its shape and its entries in row-major order. */
  datatype Dense = Dense(shape: seq<nat>, data: seq<real>)

  /** The sparse form: `index[d][t]` is coordinate d of the t-th nonzero
      entry, `attr[t]` its value. */
  datatype EdgeList = EdgeList(index: seq<seq<nat>>, attr: seq<real>)

  /** Which assertion of the function failed. */
  datatype EdgeError = RankOutOfRange | LastDimsDiffer

  datatype Result<T> = Ok(value: T) | Err(error: EdgeError)

  // ---------------------------------------------------------------------
  // Row-major layout
  // ---------------------------------------------------------------------

  function Front(s: seq<nat>): seq<nat>
    requires |s| > 0
  {
    s[..|s| - 1]
  }

  function Last(s: seq<nat>): nat
    requires |s| > 0
  {
    s[|s| - 1]
  }

  /** Number of entries of a tensor of this shape. */
  function Product(shape: seq<nat>): nat
  {
    if |shape| == 0 then 1 else Product(Front(shape)) * Last(shape)
  }

  /** The data of a tensor holds one entry per coordinate. */
  predicate Valid(a: Dense)
  {
    |a.data| == Product(a.shape)
  }

  /** `c` is a coordinate of a tensor of this shape. */
  predicate InBounds(shape: seq<nat>, c: seq<nat>)
  {
    |c| == |shape| && forall d | 0 <= d < |c| :: c[d] < shape[d]
  }

  /** The row-major offset of coordinate `c`: the last dimension varies
      fastest. */
  function Ravel(shape: seq<nat>, c: seq<nat>): nat
    requires |c| == |shape|
  {
    if |shape| == 0 then 0 else Ravel(Front(shape), Front(c)) * Last(shape) + Last(c)
  }

  /** The coordinate at row-major offset `p`. */
  function Unravel(shape: seq<nat>, p: nat): (c: seq<nat>)
    requires p < Product(shape)
    ensures InBounds(shape, c) && Ravel(shape, c) == p
  {
    if |shape| == 0 then []
    else
      var l := Last(shape);
      DivBound(p, Product(Front(shape)), l);
      var front := Unravel(Front(shape), p / l);
      var c := front + [p % l];
      assert Front(c) == front && Last(c) == p % l;
      assert p == (p / l) * l + p % l;
      assert forall d | 0 <= d < |front| :: c[d] == front[d] && Front(shape)[d] == shape[d];
      c
  }

  /** Offsets and coordinates are in one-to-one correspondence. */
  lemma {:induction false} RavelInverse(shape: seq<nat>, c: seq<nat>)
    requires InBounds(shape, c)
    ensures Ravel(shape, c) < Product(shape)
    ensures Unravel(shape, Ravel(shape, c)) == c
  {
    if |shape| > 0 {
      var l := Last(shape);
      RavelInverse(Front(shape), Front(c));
      var r := Ravel(Front(shape), Front(c));
      MulAddBound(r, Last(c), Product(Front(shape)), l);
      DivModOf(r, Last(c), l);
      assert c == Front(c) + [Last(c)];
    }
  }

  /** `a` comes before `b` in lexicographic order, the first coordinate
      most significant. */
  predicate LexLess(a: seq<nat>, b: seq<nat>)
    requires |a| == |b|
  {
    |a| > 0 && (LexLess(Front(a), Front(b)) || (Front(a) == Front(b) && Last(a) < Last(b)))
  }

  /** Row-major offsets order coordinates lexicographically. */
  lemma {:induction false} RavelOrdersLex(shape: seq<nat>, a: seq<nat>, b: seq<nat>)
    requires InBounds(shape, a) && InBounds(shape, b)
    ensures Ravel(shape, a) < Ravel(shape, b) <==> LexLess(a, b)
  {
    if |shape| > 0 {
      var fs := Front(shape);
      assert InBounds(fs, Front(a)) && InBounds(fs, Front(b));
      RavelOrdersLex(fs, Front(a), Front(b));
      RavelInverse(fs, Front(a));
      RavelInverse(fs, Front(b));
      MulAddLess(Ravel(fs, Front(a)), Last(a), Ravel(fs, Front(b)), Last(b), Last(shape));
    }
  }

  /** `adj[c]` */
  function At(a: Dense, c: seq<nat>): real
    requires Valid(a) && InBounds(a.shape, c)
  {
    RavelInverse(a.shape, c);
    a.data[Ravel(a.shape, c)]
  }

  // ---------------------------------------------------------------------
  // The nonzero entries
  // ---------------------------------------------------------------------

  /** The offsets from p on that hold a nonzero value, in increasing order. */
  function NonzeroFrom(data: seq<real>, p: nat): (offs: seq<nat>)
    requires p <= |data|
    ensures forall t | 0 <= t < |offs| :: p <= offs[t] < |data| && data[offs[t]] != 0.0
    ensures forall t, u | 0 <= t < u < |offs| :: offs[t] < offs[u]
    ensures forall q | p <= q < |data| && data[q] != 0.0 :: q in offs
    decreases |data| - p
  {
    if p == |data| then []
    else if data[p] != 0.0 then [p] + NonzeroFrom(data, p + 1)
    else NonzeroFrom(data, p + 1)
  }

  /** Column t of a stacked index: the coordinate of the t-th entry. */
  function Column(index: seq<seq<nat>>, t: nat): seq<nat>
    requires forall d | 0 <= d < |index| :: t < |index[d]|
  {
    seq(|index|, d requires 0 <= d < |index| => index[d][t])
  }

  /** Two stacked indices of one shape with the same columns are equal. */
  lemma SameColumns(x: seq<seq<nat>>, y: seq<seq<nat>>, n: nat)
    requires |x| == |y| && forall d | 0 <= d < |x| :: |x[d]| == n && |y[d]| == n
    requires forall t | 0 <= t < n :: Column(x, t) == Column(y, t)
    ensures x == y
  {
    forall d | 0 <= d < |x|
      ensures x[d] == y[d]
    {
      forall t | 0 <= t < n
        ensures x[d][t] == y[d][t]
      {
        assert Column(x, t)[d] == x[d][t] && Column(y, t)[d] == y[d][t];
      }
    }
  }

  /** `adj[index]`: the entries at the given offsets. */
  function Gather(data: seq<real>, offs: seq<nat>): (attr: seq<real>)
    requires forall t | 0 <= t < |offs| :: offs[t] < |data|
    ensures |attr| == |offs| && forall t | 0 <= t < |offs| :: attr[t] == data[offs[t]]
  {
    seq(|offs|, t requires 0 <= t < |offs| => data[offs[t]])
  }

  /** The stacked coordinates of the entries at the given offsets. */
  function Coordinates(shape: seq<nat>, offs: seq<nat>): (index: seq<seq<nat>>)
    requires forall t | 0 <= t < |offs| :: offs[t] < Product(shape)
    ensures |index| == |shape| && forall d | 0 <= d < |shape| :: |index[d]| == |offs|
    ensures forall t | 0 <= t < |offs| :: Column(index, t) == Unravel(shape, offs[t])
  {
    seq(|shape|, d requires 0 <= d < |shape| =>
      seq(|offs|, t requires 0 <= t < |offs| => Unravel(shape, offs[t])[d]))
  }

  /** `getEdgeIdxAttr(adj)`: fails the first assertion unless the rank is 2
      or 3, then the second unless the last two extents agree; otherwise
      returns `(stack(adj.nonzero()), adj[adj.nonzero()])`. */
  function GetEdgeIdxAttr(adj: Dense): (r: Result<EdgeList>)
    requires Valid(adj)
    ensures r.Err? <==> !(2 <= |adj.shape| <= 3) || adj.shape[|adj.shape| - 1] != adj.shape[|adj.shape| - 2]
    ensures r.Err? && !(2 <= |adj.shape| <= 3) ==> r.error == RankOutOfRange
    ensures r.Err? && 2 <= |adj.shape| <= 3 ==> r.error == LastDimsDiffer
    ensures r.Ok? ==>
      |r.value.index| == |adj.shape| &&
      (forall d | 0 <= d < |adj.shape| :: |r.value.index[d]| == |r.value.attr|)
  {
    var rank := |adj.shape|;
    if !(2 <= rank <= 3) then Err(RankOutOfRange)
    else if adj.shape[rank - 1] != adj.shape[rank - 2] then Err(LastDimsDiffer)
    else
      var offs := NonzeroFrom(adj.data, 0);
      Ok(EdgeList(Coordinates(adj.shape, offs), Gather(adj.data, offs)))
  }

  /** The stacked index has one row per dimension, all of one length, and
      every column is a coordinate of the shape. */
  predicate WellShaped(shape: seq<nat>, e: EdgeList)
  {
    |e.index| == |shape| &&
    (forall d | 0 <= d < |shape| :: |e.index[d]| == |e.attr|) &&
    (forall t | 0 <= t < |e.attr| :: InBounds(shape, Column(e.index, t)))
  }

  /** Every listed coordinate holds a nonzero entry, and `attr` holds it. */
  lemma EdgesSound(adj: Dense)
    requires Valid(adj) && GetEdgeIdxAttr(adj).Ok?
    ensures WellShaped(adj.shape, GetEdgeIdxAttr(adj).value)
    ensures var e := GetEdgeIdxAttr(adj).value;
      forall t | 0 <= t < |e.attr| :: At(adj, Column(e.index, t)) == e.attr[t] && e.attr[t] != 0.0
  {
    var offs := NonzeroFrom(adj.data, 0);
    var e := GetEdgeIdxAttr(adj).value;
    assert e.index == Coordinates(adj.shape, offs);
    forall t | 0 <= t < |e.attr|
      ensures InBounds(adj.shape, Column(e.index, t))
      ensures At(adj, Column(e.index, t)) == e.attr[t] && e.attr[t] != 0.0
    {
      assert Column(e.index, t) == Unravel(adj.shape, offs[t]);
    }
  }

  /** Every nonzero entry is listed. */
  lemma EdgesComplete(adj: Dense, c: seq<nat>)
    requires Valid(adj) && GetEdgeIdxAttr(adj).Ok?
    requires InBounds(adj.shape, c) && At(adj, c) != 0.0
    ensures var e := GetEdgeIdxAttr(adj).value;
      exists t | 0 <= t < |e.attr| :: Column(e.index, t) == c
  {
    var offs := NonzeroFrom(adj.data, 0);
    var e := GetEdgeIdxAttr(adj).value;
    RavelInverse(adj.shape, c);
    var p := Ravel(adj.shape, c);
    assert p in offs;
    var t :| 0 <= t < |offs| && offs[t] == p;
    assert Column(e.index, t) == Unravel(adj.shape, p) == c;
  }

  // ---------------------------------------------------------------------
  // Back to dense: `out = zeros(shape); out[tuple(index)] = attr`
  // ---------------------------------------------------------------------

  /** The value the scatter leaves at offset q: the last write to q, or 0. */
  function Written(offs: seq<nat>, vals: seq<real>, q: nat): real
    requires |offs| == |vals|
  {
    if |offs| == 0 then 0.0
    else if offs[|offs| - 1] == q then vals[|vals| - 1]
    else Written(offs[..|offs| - 1], vals[..|vals| - 1], q)
  }

  /** The row-major offsets of the listed coordinates. */
  function Offsets(shape: seq<nat>, e: EdgeList): (offs: seq<nat>)
    requires WellShaped(shape, e)
    ensures |offs| == |e.attr| && forall t | 0 <= t < |offs| :: offs[t] < Product(shape)
  {
    forall t | 0 <= t < |e.attr|
      ensures Ravel(shape, Column(e.index, t)) < Product(shape)
    {
      RavelInverse(shape, Column(e.index, t));
    }
    seq(|e.attr|, t requires 0 <= t < |e.attr| => Ravel(shape, Column(e.index, t)))
  }

  /** getEdgeIdxAttr lists its entries in row-major order: their offsets
      strictly increase. */
  lemma EdgesIncreasing(adj: Dense)
    requires Valid(adj) && GetEdgeIdxAttr(adj).Ok?
    ensures WellShaped(adj.shape, GetEdgeIdxAttr(adj).value)
    ensures Offsets(adj.shape, GetEdgeIdxAttr(adj).value) == NonzeroFrom(adj.data, 0)
    ensures Increasing(Offsets(adj.shape, GetEdgeIdxAttr(adj).value))
  {
    EdgesSound(adj);
    var e := GetEdgeIdxAttr(adj).value;
    var offs := NonzeroFrom(adj.data, 0);
    forall t | 0 <= t < |offs|
      ensures Offsets(adj.shape, e)[t] == offs[t]
    {
      assert Column(e.index, t) == Unravel(adj.shape, offs[t]);
    }
  }

  /** Increasing offsets mean coordinates in lexicographic order. */
  lemma LexSorted(shape: seq<nat>, e: EdgeList)
    requires WellShaped(shape, e) && Increasing(Offsets(shape, e))
    ensures forall t, u | 0 <= t < u < |e.attr| ::
      |Column(e.index, t)| == |Column(e.index, u)| && LexLess(Column(e.index, t), Column(e.index, u))
  {
    forall t, u | 0 <= t < u < |e.attr|
      ensures |Column(e.index, t)| == |Column(e.index, u)| && LexLess(Column(e.index, t), Column(e.index, u))
    {
      var o := Offsets(shape, e);
      assert o[t] < o[u];
      RavelOrdersLex(shape, Column(e.index, t), Column(e.index, u));
    }
  }

  /** The dense tensor of this shape that holds `attr` at the listed
      coordinates and 0 elsewhere. */
  function Scatter(shape: seq<nat>, e: EdgeList): (a: Dense)
    requires WellShaped(shape, e)
    ensures Valid(a) && a.shape == shape
  {
    Dense(shape, seq(Product(shape), q requires 0 <= q < Product(shape) => Written(Offsets(shape, e), e.attr, q)))
  }

  /** Scattering distinct offsets: each one gets its own value. */
  lemma {:induction false} WrittenDistinct(offs: seq<nat>, vals: seq<real>, q: nat)
    requires |offs| == |vals|
    requires forall t, u | 0 <= t < u < |offs| :: offs[t] != offs[u]
    ensures q !in offs ==> Written(offs, vals, q) == 0.0
    ensures forall t | 0 <= t < |offs| && offs[t] == q :: Written(offs, vals, q) == vals[t]
  {
    if |offs| > 0 {
      var n := |offs| - 1;
      WrittenDistinct(offs[..n], vals[..n], q);
      assert forall t | 0 <= t < n :: offs[..n][t] == offs[t] && vals[..n][t] == vals[t];
      assert q in offs && offs[n] != q ==> q in offs[..n];
    }
  }

  /** Dense to sparse to dense gives back the tensor. */
  lemma DenseRoundTrip(adj: Dense)
    requires Valid(adj) && GetEdgeIdxAttr(adj).Ok?
    ensures WellShaped(adj.shape, GetEdgeIdxAttr(adj).value)
    ensures Scatter(adj.shape, GetEdgeIdxAttr(adj).value) == adj
  {
    EdgesIncreasing(adj);
    var e := GetEdgeIdxAttr(adj).value;
    var offs := NonzeroFrom(adj.data, 0);
    var b := Scatter(adj.shape, e);
    forall q | 0 <= q < |adj.data|
      ensures b.data[q] == adj.data[q]
    {
      WrittenDistinct(offs, e.attr, q);
      if adj.data[q] != 0.0 {
        var t :| 0 <= t < |offs| && offs[t] == q;
      }
    }
  }

  predicate Increasing(offs: seq<nat>)
  {
    forall t, u | 0 <= t < u < |offs| :: offs[t] < offs[u]
  }

  /** A set of offsets has one increasing listing. */
  lemma IncreasingUnique(x: seq<nat>, y: seq<nat>)
    requires Increasing(x) && Increasing(y)
    requires forall q :: q in x <==> q in y
    ensures x == y
  {
    DistinctCard(x);
    DistinctCard(y);
    assert Elems(x) == Elems(y);
    IncreasingUniqueOfLength(x, y);
  }

  lemma {:induction false} IncreasingUniqueOfLength(x: seq<nat>, y: seq<nat>)
    requires Increasing(x) && Increasing(y) && |x| == |y|
    requires forall q :: q in x <==> q in y
    ensures x == y
  {
    if |x| > 0 {
      assert x[0] in y && y[0] in x;
      assert x[0] == y[0];
      forall q
        ensures q in x[1..] <==> q in y[1..]
      {
        assert q in x[1..] <==> q in x && q != x[0];
        assert q in y[1..] <==> q in y && q != y[0];
      }
      IncreasingUniqueOfLength(x[1..], y[1..]);
      assert x == [x[0]] + x[1..] && y == [y[0]] + y[1..];
    }
  }

  /** Scattering a canonical listing puts its values exactly at its offsets,
      so the nonzeros of the result are listed by those offsets. */
  lemma ScatterNonzeros(shape: seq<nat>, e: EdgeList)
    requires WellShaped(shape, e)
    requires Increasing(Offsets(shape, e))
    requires forall t | 0 <= t < |e.attr| :: e.attr[t] != 0.0
    ensures NonzeroFrom(Scatter(shape, e).data, 0) == Offsets(shape, e)
    ensures forall t | 0 <= t < |e.attr| :: Scatter(shape, e).data[Offsets(shape, e)[t]] == e.attr[t]
  {
    var a := Scatter(shape, e);
    var o := Offsets(shape, e);
    forall q | 0 <= q < |a.data|
      ensures a.data[q] != 0.0 <==> q in o
      ensures forall t | 0 <= t < |o| && o[t] == q :: a.data[q] == e.attr[t]
    {
      WrittenDistinct(o, e.attr, q);
    }
    IncreasingUnique(NonzeroFrom(a.data, 0), o);
  }

  /** Turning the offsets of a well-shaped listing back into coordinates
      gives its index. */
  lemma CoordinatesOfOffsets(shape: seq<nat>, e: EdgeList)
    requires WellShaped(shape, e)
    ensures Coordinates(shape, Offsets(shape, e)) == e.index
  {
    var o := Offsets(shape, e);
    var c := Coordinates(shape, o);
    forall t | 0 <= t < |o|
      ensures Column(c, t) == Column(e.index, t)
    {
      RavelInverse(shape, Column(e.index, t));
    }
    SameColumns(c, e.index, |o|);
  }

  /** On a tensor that passes both checks, getEdgeIdxAttr returns the
      coordinates of the nonzero offsets and the entries stored there. */
  lemma EdgesOfNonzeros(adj: Dense, e: EdgeList)
    requires Valid(adj) && 2 <= |adj.shape| <= 3 && adj.shape[|adj.shape| - 1] == adj.shape[|adj.shape| - 2]
    requires e.index == Coordinates(adj.shape, NonzeroFrom(adj.data, 0))
    requires |e.attr| == |NonzeroFrom(adj.data, 0)|
    requires forall t | 0 <= t < |e.attr| :: e.attr[t] == adj.data[NonzeroFrom(adj.data, 0)[t]]
    ensures GetEdgeIdxAttr(adj) == Ok(e)
  {
    assert e.attr == Gather(adj.data, NonzeroFrom(adj.data, 0));
  }

  /** Sparse to dense to sparse gives back a listing in the canonical form
      getEdgeIdxAttr produces: coordinates of a rank 2 or 3 tensor with equal
      last extents, in strictly increasing row-major order, nonzero values. */
  lemma SparseRoundTrip(shape: seq<nat>, e: EdgeList)
    requires 2 <= |shape| <= 3 && shape[|shape| - 1] == shape[|shape| - 2]
    requires WellShaped(shape, e)
    requires Increasing(Offsets(shape, e))
    requires forall t | 0 <= t < |e.attr| :: e.attr[t] != 0.0
    ensures GetEdgeIdxAttr(Scatter(shape, e)) == Ok(e)
  {
    var a := Scatter(shape, e);
    var o := Offsets(shape, e);
    ScatterNonzeros(shape, e);
    CoordinatesOfOffsets(shape, e);
    EdgesOfNonzeros(a, e);
  }
}
