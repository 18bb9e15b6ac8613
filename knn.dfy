/** The k-nearest-neighbour adjacency builder (`Adjacency_KNN`): per subject
    and per row, keep the entries at the k largest values, zero the rest, and
    symmetrise the subject's matrix by adding its transpose. */
module Knn {
  import opened Tensors
  import opened Lists

  /** The default `k` of `Adjacency_KNN`, the one `load_data` uses. */
  const DefaultK: int := 5

  // ---------------------------------------------------------------------
  // Selecting the columns: `np.argsort(graph)[:, -1:-k-1:-1]`
  // ---------------------------------------------------------------------

  function Min(a: int, b: int): int { if a <= b then a else b }
  function Max(a: int, b: int): int { if a <= b then b else a }

  /** Python's normalisation of a slice bound when the step is negative,
      over an axis of length n. */
  function NegStepBound(b: int, n: nat): int
  {
    if b < 0 then (if b + n < 0 then -1 else b + n)
    else if b >= n then n - 1
    else b
  }

  /** The positions that the slice `[start:stop:-1]` picks from an axis of
      length n, in the order the slice lists them. */
  function NegStepSlice(n: nat, start: int, stop: int): (idx: seq<nat>)
    ensures forall t | 0 <= t < |idx| :: idx[t] < n
  {
    var hi := NegStepBound(start, n);
    var lo := NegStepBound(stop, n);
    if lo < hi then seq(hi - lo, t requires 0 <= t < hi - lo => hi - t) else []
  }

  /** How many columns the slice `[-1:-k-1:-1]` keeps from a row of length n. */
  function KeepCount(k: int, n: nat): nat
  {
    if k >= 0 then Min(k, n) else Max(0, n + k)
  }

  /** The slice `[-1:-k-1:-1]` walks back from the last position over
      KeepCount(k, n) positions: min(k, n) of them for k >= 0, and n + k
      (when positive) for a negative k. */
  lemma TailSlice(n: nat, k: int)
    ensures KeepCount(k, n) <= n
    ensures NegStepSlice(n, -1, -k - 1) == seq(KeepCount(k, n), t requires 0 <= t < KeepCount(k, n) => n - 1 - t)
  {
    var s := NegStepSlice(n, -1, -k - 1);
    var c := KeepCount(k, n);
    assert |s| == c;
    forall t | 0 <= t < c
      ensures s[t] == n - 1 - t
    {
    }
  }

  /** `order` is an ordering `np.argsort(row)` may return: a permutation of
      the positions of `row` listing them by non-decreasing value, ties in
      any order. */
  predicate IsArgsort(row: Row, order: seq<nat>)
  {
    |order| == |row| &&
    (forall p | 0 <= p < |order| :: order[p] < |row|) &&
    (forall p, q | 0 <= p < q < |order| :: order[p] != order[q]) &&
    (forall j | 0 <= j < |row| :: j in order) &&
    (forall p, q | 0 <= p < q < |order| :: row[order[p]] <= row[order[q]])
  }

  /** `order[-1:-k-1:-1]`: the columns `topk_idx` lists for one row. */
  function ArgsortTop(order: seq<nat>, k: int): (idx: seq<nat>)
    ensures |idx| == KeepCount(k, |order|)
    ensures forall t | 0 <= t < |idx| :: idx[t] == order[|order| - 1 - t]
  {
    TailSlice(|order|, k);
    var s := NegStepSlice(|order|, -1, -k - 1);
    seq(|s|, t requires 0 <= t < |s| => order[s[t]])
  }

  /** `idx` lists c distinct columns of `row` whose values are at least every
      value left out: the k largest signed values, with ties broken in any
      way. */
  predicate IsTopK(row: Row, c: nat, idx: seq<nat>)
  {
    |idx| == c &&
    (forall t | 0 <= t < c :: idx[t] < |row|) &&
    (forall t, u | 0 <= t < u < c :: idx[t] != idx[u]) &&
    (forall t, j | 0 <= t < c && 0 <= j < |row| && j !in idx :: row[j] <= row[idx[t]])
  }

  /** The listed columns come largest value first. */
  predicate Descending(row: Row, idx: seq<nat>)
  {
    forall t, u | 0 <= t < u < |idx| && idx[t] < |row| && idx[u] < |row| :: row[idx[u]] <= row[idx[t]]
  }

  /** Whatever order among equal values argsort settles on, the reversed
      tail it yields is a top selection of KeepCount(k, n) columns, largest
      first. So the relational IsTopK covers every tie-breaking. */
  lemma ArgsortTopIsTopK(row: Row, order: seq<nat>, k: int)
    requires IsArgsort(row, order)
    ensures IsTopK(row, KeepCount(k, |row|), ArgsortTop(order, k))
    ensures Descending(row, ArgsortTop(order, k))
  {
    var n := |row|;
    var c := KeepCount(k, n);
    var top := ArgsortTop(order, k);
    forall t, u | 0 <= t < u < c
      ensures top[t] != top[u] && row[top[u]] <= row[top[t]]
    {
      assert top[t] == order[n - 1 - t] && top[u] == order[n - 1 - u];
    }
    forall t, j | 0 <= t < c && 0 <= j < n && j !in top
      ensures row[j] <= row[top[t]]
    {
      DroppedBelowKept(row, order, k, t, j);
    }
  }

  /** A column the slice leaves out sits before every kept one in the
      ascending order, so its value is no larger. */
  lemma DroppedBelowKept(row: Row, order: seq<nat>, k: int, t: nat, j: nat)
    requires IsArgsort(row, order)
    requires t < KeepCount(k, |row|) && j < |row| && j !in ArgsortTop(order, k)
    ensures row[j] <= row[ArgsortTop(order, k)[t]]
  {
    var n, c := |row|, KeepCount(k, |row|);
    var top := ArgsortTop(order, k);
    assert j in order;
    var p :| 0 <= p < n && order[p] == j;
    forall q | n - c <= q < n
      ensures order[q] != j
    {
      assert order[q] == top[n - 1 - q];
    }
    assert p < n - 1 - t;
  }

  /** The columns of `row` with a larger value than column j. */
  function Greater(row: Row, j: nat): set<nat>
    requires j < |row|
  {
    set i | 0 <= i < |row| && row[i] > row[j]
  }

  lemma SubsetCard(sa: set<nat>, sb: set<nat>)
    requires sa <= sb
    ensures |sa| <= |sb|
  {
    assert sb == sa + (sb - sa);
  }

  /** Only chosen columns can beat a chosen column j, so fewer than c do. */
  lemma FewBeatSelected(row: Row, c: nat, a: seq<nat>, j: nat)
    requires IsTopK(row, c, a) && j < |row| && j in a
    ensures |Greater(row, j)| < c
  {
    var sa := Elems(a);
    DistinctCard(a);
    var t :| 0 <= t < c && a[t] == j;
    assert Greater(row, j) <= sa - {j};
    SubsetCard(Greater(row, j), sa - {j});
  }

  /** With no repeated value, every chosen column beats a column j left
      out, so at least c do. */
  lemma AllBeatUnselected(row: Row, c: nat, a: seq<nat>, j: nat)
    requires IsTopK(row, c, a) && j < |row| && j !in a
    requires forall i, i' | 0 <= i < i' < |row| :: row[i] != row[i']
    ensures c <= |Greater(row, j)|
  {
    var sa := Elems(a);
    DistinctCard(a);
    forall x | x in sa
      ensures x in Greater(row, j)
    {
      var t :| 0 <= t < c && a[t] == x;
      assert x < j || j < x;
    }
    SubsetCard(sa, Greater(row, j));
  }

  /** With no repeated value, column j is in a top selection of c columns
      exactly when fewer than c columns beat it. */
  lemma SelectedByRank(row: Row, c: nat, a: seq<nat>, j: nat)
    requires IsTopK(row, c, a) && j < |row|
    requires forall i, i' | 0 <= i < i' < |row| :: row[i] != row[i']
    ensures j in a <==> |Greater(row, j)| < c
  {
    if j in a {
      FewBeatSelected(row, c, a, j);
    } else {
      AllBeatUnselected(row, c, a, j);
    }
  }

  /** Distinct selections of one size from a row without repeated values
      pick the same columns: ties are the only freedom argsort has. */
  lemma TopKUniqueWithoutTies(row: Row, c: nat, a: seq<nat>, b: seq<nat>)
    requires IsTopK(row, c, a) && IsTopK(row, c, b)
    requires forall i, j | 0 <= i < j < |row| :: row[i] != row[j]
    ensures forall j :: j in a <==> j in b
  {
    forall j
      ensures j in a <==> j in b
    {
      if 0 <= j < |row| {
        SelectedByRank(row, c, a, j);
        SelectedByRank(row, c, b, j);
      }
    }
  }

  // ---------------------------------------------------------------------
  // Every selection is one argsort may give
  // ---------------------------------------------------------------------

  /** The listed columns come smallest value first. */
  predicate Ascending(row: Row, s: seq<nat>)
  {
    forall p, q | 0 <= p < q < |s| && s[p] < |row| && s[q] < |row| :: row[s[p]] <= row[s[q]]
  }

  /** Putting a column no larger than any listed one in front keeps a
      listing ascending. */
  lemma ConsAscending(row: Row, a: nat, s: seq<nat>)
    requires a < |row| && (forall p | 0 <= p < |s| :: s[p] < |row|) && Ascending(row, s)
    requires forall p | 0 <= p < |s| :: row[a] <= row[s[p]]
    ensures Ascending(row, [a] + s)
  {
    var r := [a] + s;
    forall p, q | 0 <= p < q < |r|
      ensures row[r[p]] <= row[r[q]]
    {
      assert r[q] == s[q - 1];
      if p > 0 {
        assert r[p] == s[p - 1];
      }
    }
  }

  /** Insert column x into a listing, before the first larger value. */
  function Insert(row: Row, x: nat, s: seq<nat>): (r: seq<nat>)
    requires x < |row| && forall p | 0 <= p < |s| :: s[p] < |row|
    ensures |r| == |s| + 1
    ensures forall v :: v in r <==> v == x || v in s
    ensures forall p | 0 <= p < |r| :: r[p] < |row|
  {
    if |s| == 0 || row[x] <= row[s[0]] then [x] + s
    else [s[0]] + Insert(row, x, s[1..])
  }

  /** Inserting into an ascending listing keeps it ascending. */
  lemma {:induction false} InsertAscending(row: Row, x: nat, s: seq<nat>)
    requires x < |row| && (forall p | 0 <= p < |s| :: s[p] < |row|) && Ascending(row, s)
    ensures Ascending(row, Insert(row, x, s))
  {
    if |s| == 0 || row[x] <= row[s[0]] {
      ConsAscending(row, x, s);
    } else {
      var r' := Insert(row, x, s[1..]);
      InsertAscending(row, x, s[1..]);
      forall p | 0 <= p < |r'|
        ensures row[s[0]] <= row[r'[p]]
      {
        if r'[p] != x {
          assert r'[p] in s[1..];
          var q :| 0 <= q < |s| - 1 && s[1..][q] == r'[p];
          assert s[q + 1] == r'[p];
        }
      }
      ConsAscending(row, s[0], r');
    }
  }

  /** Inserting a new column into a listing without repeats keeps it so. */
  lemma {:induction false} InsertDistinct(row: Row, x: nat, s: seq<nat>)
    requires x < |row| && (forall p | 0 <= p < |s| :: s[p] < |row|)
    requires Distinct(s) && x !in s
    ensures Distinct(Insert(row, x, s))
  {
    if |s| > 0 && row[x] > row[s[0]] {
      InsertDistinct(row, x, s[1..]);
      assert s[0] !in s[1..];
    }
  }

  /** The columns of s by non-decreasing value (insertion sort). */
  function SortAscending(row: Row, s: seq<nat>): (r: seq<nat>)
    requires forall p | 0 <= p < |s| :: s[p] < |row|
    ensures |r| == |s|
    ensures forall v :: v in r <==> v in s
    ensures forall p | 0 <= p < |r| :: r[p] < |row|
    ensures Ascending(row, r)
    ensures Distinct(s) ==> Distinct(r)
  {
    if |s| == 0 then []
    else
      var r' := SortAscending(row, s[1..]);
      InsertAscending(row, s[0], r');
      assert Distinct(s) ==> s[0] !in r' && Distinct(r') by {
        if Distinct(s) {
          assert s[0] !in s[1..];
          assert Distinct(s[1..]);
        }
      }
      if Distinct(s) then
        InsertDistinct(row, s[0], r');
        Insert(row, s[0], r')
      else
        Insert(row, s[0], r')
  }

  /** The columns below m that idx does not list, in increasing order. */
  function Outside(m: nat, idx: seq<nat>): (r: seq<nat>)
    ensures Distinct(r)
    ensures forall p | 0 <= p < |r| :: r[p] < m
    ensures forall v :: v in r <==> 0 <= v < m && v !in idx
  {
    if m == 0 then []
    else if m - 1 in idx then Outside(m - 1, idx)
    else Outside(m - 1, idx) + [m - 1]
  }

  /** Two ascending listings, without repeats, apart and together naming
      every column, where the first's values are at most the second's,
      make an argsort ordering when joined. */
  lemma ArgsortOfSplit(row: Row, low: seq<nat>, high: seq<nat>)
    requires (forall p | 0 <= p < |low| :: low[p] < |row|) && (forall q | 0 <= q < |high| :: high[q] < |row|)
    requires Distinct(low) && Distinct(high) && forall v | v in low :: v !in high
    requires forall j | 0 <= j < |row| :: j in low || j in high
    requires Ascending(row, low) && Ascending(row, high)
    requires forall p, q | 0 <= p < |low| && 0 <= q < |high| :: row[low[p]] <= row[high[q]]
    ensures IsArgsort(row, low + high)
  {
    var order := low + high;
    var n := |row|;
    forall p, q | 0 <= p < q < |order|
      ensures order[p] != order[q] && row[order[p]] <= row[order[q]]
    {
      if q < |low| {
        assert order[p] == low[p] && order[q] == low[q];
      } else if p >= |low| {
        assert order[p] == high[p - |low|] && order[q] == high[q - |low|];
      } else {
        assert order[p] == low[p] && order[q] == high[q - |low|];
        assert low[p] in low;
      }
    }
    assert forall j | 0 <= j < n :: j in order;
    CoveringLength(order, n);
  }

  /** idx reversed: the order an ascending argsort lists the chosen columns. */
  function Reversed(idx: seq<nat>): (r: seq<nat>)
    ensures |r| == |idx| && forall t | 0 <= t < |idx| :: r[|idx| - 1 - t] == idx[t]
    ensures forall v :: v in r <==> v in idx
  {
    var r := seq(|idx|, t requires 0 <= t < |idx| => idx[|idx| - 1 - t]);
    assert forall t | 0 <= t < |idx| :: r[|idx| - 1 - t] == idx[t];
    r
  }

  /** A descending listing without repeats, reversed, is an ascending one
      without repeats. */
  lemma ReversedAscending(row: Row, idx: seq<nat>)
    requires Distinct(idx) && Descending(row, idx)
    ensures Distinct(Reversed(idx)) && Ascending(row, Reversed(idx))
  {
    var r := Reversed(idx);
    var c := |idx|;
    forall p, q | 0 <= p < q < c
      ensures r[p] != r[q] && (r[p] < |row| && r[q] < |row| ==> row[r[p]] <= row[r[q]])
    {
      assert r[p] == idx[c - 1 - p] && r[q] == idx[c - 1 - q];
    }
  }

  /** The slice of `low + Reversed(idx)` is idx when idx has the slice's length. */
  lemma TopOfSplit(low: seq<nat>, idx: seq<nat>, k: int)
    requires |idx| == KeepCount(k, |low| + |idx|)
    ensures ArgsortTop(low + Reversed(idx), k) == idx
  {
    var order := low + Reversed(idx);
    var top := ArgsortTop(order, k);
    forall t | 0 <= t < |idx|
      ensures top[t] == idx[t]
    {
      var p := |order| - 1 - t;
      assert top[t] == order[p];
      assert p - |low| == |idx| - 1 - t;
      assert order[p] == Reversed(idx)[|idx| - 1 - t];
    }
    assert top == idx;
  }

  /** In a top selection, no column left out has a larger value than a
      chosen one, whichever listing of either side is taken. */
  lemma OutsideBelowChosen(row: Row, c: nat, idx: seq<nat>, low: seq<nat>, high: seq<nat>)
    requires IsTopK(row, c, idx)
    requires forall p | 0 <= p < |low| :: low[p] < |row| && low[p] !in idx
    requires (forall q | 0 <= q < |high| :: high[q] < |row|) && forall v :: v in high <==> v in idx
    ensures forall p, q | 0 <= p < |low| && 0 <= q < |high| :: row[low[p]] <= row[high[q]]
  {
    forall p, q | 0 <= p < |low| && 0 <= q < |high|
      ensures row[low[p]] <= row[high[q]]
    {
      assert high[q] in idx;
      var t :| 0 <= t < c && idx[t] == high[q];
    }
  }

  /** The columns left out, sorted ascending, followed by the chosen ones
      reversed: an ordering argsort may return. */
  function SplitOrder(row: Row, idx: seq<nat>): seq<nat>
  {
    SortAscending(row, Outside(|row|, idx)) + Reversed(idx)
  }

  lemma SplitOrderIsArgsort(row: Row, c: nat, idx: seq<nat>)
    requires IsTopK(row, c, idx) && Descending(row, idx)
    ensures IsArgsort(row, SplitOrder(row, idx))
  {
    var low := SortAscending(row, Outside(|row|, idx));
    var high := Reversed(idx);
    OutsideBelowChosen(row, c, idx, low, high);
    ReversedAscending(row, idx);
    ArgsortOfSplit(row, low, high);
  }

  /** The converse of ArgsortTopIsTopK: every descending top selection is
      the slice of some ordering argsort may return, so the selections the
      builder's contract allows are exactly those argsort can produce. */
  lemma TopKIsArgsortTop(row: Row, k: int, idx: seq<nat>)
    requires IsTopK(row, KeepCount(k, |row|), idx) && Descending(row, idx)
    ensures exists order :: IsArgsort(row, order) && ArgsortTop(order, k) == idx
  {
    var order := SplitOrder(row, idx);
    SplitOrderIsArgsort(row, KeepCount(k, |row|), idx);
    TopOfSplit(SortAscending(row, Outside(|row|, idx)), idx, k);
    assert IsArgsort(row, order) && ArgsortTop(order, k) == idx;
  }

  // ---------------------------------------------------------------------
  // The adjacency a subject gets: lines 13-15
  // ---------------------------------------------------------------------

  /** One selection per row of `g`, each a top selection of the size the
      slice keeps, largest first. */
  predicate IsKnnSelection(g: Matrix, k: int, sel: seq<seq<nat>>)
  {
    |sel| == |g| &&
    forall i | 0 <= i < |g| :: IsTopK(g[i], KeepCount(k, |g[i]|), sel[i]) && Descending(g[i], sel[i])
  }

  /** The matrix line 14 leaves before symmetrisation: row i keeps the
      values at the columns sel[i] lists, every other entry is 0. */
  function Kept(g: Matrix, sel: seq<seq<nat>>): (m: Matrix)
    requires |sel| == |g|
    ensures |m| == |g| && forall i | 0 <= i < |g| :: |m[i]| == |g[i]|
    ensures forall i, j | 0 <= i < |g| && 0 <= j < |g[i]| ::
      (m[i][j] != 0.0 <==> j in sel[i] && g[i][j] != 0.0) && (j in sel[i] ==> m[i][j] == g[i][j])
  {
    seq(|g|, i requires 0 <= i < |g| =>
      seq(|g[i]|, j requires 0 <= j < |g[i]| => if j in sel[i] then g[i][j] else 0.0))
  }

  /** `m + m.T`, line 15. */
  function Symmetrized(m: Matrix): (r: Matrix)
    requires IsMatrix(m, |m|, |m|)
    ensures IsMatrix(r, |m|, |m|) && IsSymmetric(r)
  {
    seq(|m|, i requires 0 <= i < |m| => seq(|m|, j requires 0 <= j < |m| => m[i][j] + m[j][i]))
  }

  /** The k-NN adjacency of one square subject under a row selection. */
  function KnnGraph(g: Matrix, sel: seq<seq<nat>>): (r: Matrix)
    requires IsMatrix(g, |g|, |g|) && |sel| == |g|
    ensures IsMatrix(r, |g|, |g|) && IsSymmetric(r)
    ensures forall i, j | 0 <= i < |g| && 0 <= j < |g| && r[i][j] != 0.0 :: j in sel[i] || i in sel[j]
  {
    Symmetrized(Kept(g, sel))
  }

  /** Before symmetrisation each row keeps exactly KeepCount(k, n) positions
      (min(k, n) for k >= 0): at those the original value, elsewhere 0, and
      no dropped value exceeds a kept one. */
  lemma KeptRow(g: Matrix, k: int, sel: seq<seq<nat>>, i: nat)
    requires IsKnnSelection(g, k, sel) && i < |g|
    ensures |set j | 0 <= j < |g[i]| && j in sel[i]| == KeepCount(k, |g[i]|)
    ensures forall j | 0 <= j < |g[i]| :: Kept(g, sel)[i][j] == if j in sel[i] then g[i][j] else 0.0
    ensures forall j, j' | 0 <= j < |g[i]| && 0 <= j' < |g[i]| && j in sel[i] && j' !in sel[i] :: g[i][j'] <= g[i][j]
  {
    var n := |g[i]|;
    assert IsTopK(g[i], KeepCount(k, n), sel[i]);
    DistinctCard(sel[i]);
    assert (set j | 0 <= j < n && j in sel[i]) == Elems(sel[i]);
    forall j, j' | 0 <= j < n && 0 <= j' < n && j in sel[i] && j' !in sel[i]
      ensures g[i][j'] <= g[i][j]
    {
      var t :| 0 <= t < |sel[i]| && sel[i][t] == j;
    }
  }

  /** On a symmetric connectivity matrix (the case of correlation data) the
      k-NN graph has an edge i-j exactly when the connectivity is nonzero
      and j is among i's top columns or i among j's. */
  lemma KnnEdgeOfSymmetric(g: Matrix, sel: seq<seq<nat>>, i: nat, j: nat)
    requires IsMatrix(g, |g|, |g|) && IsSymmetric(g) && |sel| == |g|
    requires i < |g| && j < |g|
    ensures KnnGraph(g, sel)[i][j] != 0.0 <==> g[i][j] != 0.0 && (j in sel[i] || i in sel[j])
  {
    var r := KnnGraph(g, sel);
    var kept := Kept(g, sel);
    assert r[i][j] == kept[i][j] + kept[j][i];
    assert g[j][i] == g[i][j];
  }

  // ---------------------------------------------------------------------
  // The builder itself
  // ---------------------------------------------------------------------

  /** The columns chosen so far (`idx`, largest first) and those still
      available (`rest`) split the columns of `row`, and nothing still
      available beats a chosen one. */
  predicate Selecting(row: Row, idx: seq<nat>, rest: seq<nat>)
  {
    |idx| + |rest| == |row| &&
    (forall t | 0 <= t < |idx| :: idx[t] < |row|) &&
    (forall p | 0 <= p < |rest| :: rest[p] < |row|) &&
    Distinct(idx) && Distinct(rest) &&
    (forall j | 0 <= j < |row| :: j in idx <==> j !in rest) &&
    (forall t, p | 0 <= t < |idx| && 0 <= p < |rest| :: row[rest[p]] <= row[idx[t]]) &&
    Descending(row, idx)
  }

  /** Position in `rest` of a largest value of `row` (the first such). */
  method ArgMax(row: Row, rest: seq<nat>) returns (best: nat)
    requires |rest| > 0 && forall p | 0 <= p < |rest| :: rest[p] < |row|
    ensures best < |rest|
    ensures forall q | 0 <= q < |rest| :: row[rest[q]] <= row[rest[best]]
    ensures forall q | 0 <= q < best :: row[rest[q]] < row[rest[best]]
  {
    best := 0;
    var p := 1;
    while p < |rest|
      invariant 0 <= best < p <= |rest|
      invariant forall q | 0 <= q < p :: row[rest[q]] <= row[rest[best]]
      invariant forall q | 0 <= q < best :: row[rest[q]] < row[rest[best]]
    {
      if row[rest[p]] > row[rest[best]] {
        best := p;
      }
      p := p + 1;
    }
  }

  /** Taking one element out of a sequence without repeats leaves exactly
      the others, still without repeats. */
  lemma RemoveAt(rest: seq<nat>, best: nat)
    requires Distinct(rest) && best < |rest|
    ensures Distinct(rest[..best] + rest[best + 1..])
    ensures forall j :: j in rest[..best] + rest[best + 1..] <==> j in rest && j != rest[best]
  {
    var rest' := rest[..best] + rest[best + 1..];
    assert forall q | 0 <= q < |rest'| :: rest'[q] == if q < best then rest[q] else rest[q + 1];
    assert forall q | 0 <= q < |rest| && q != best :: rest[q] in rest';
  }

  /** Moving a largest available column to the end of the chosen ones keeps
      the split. */
  lemma SelectingStep(row: Row, idx: seq<nat>, rest: seq<nat>, best: nat)
    requires Selecting(row, idx, rest) && best < |rest|
    requires forall q | 0 <= q < |rest| :: row[rest[q]] <= row[rest[best]]
    ensures Selecting(row, idx + [rest[best]], rest[..best] + rest[best + 1..])
  {
    var b := rest[best];
    var idx', rest' := idx + [b], rest[..best] + rest[best + 1..];
    RemoveAt(rest, best);
    assert b !in idx;
    assert forall j :: j in idx' <==> j in idx || j == b;
    assert forall p | 0 <= p < |rest'| :: rest'[p] in rest;
  }

  /** `np.argsort(row)[-1:-k-1:-1]` for one row: the columns of the
      KeepCount(k, |row|) largest values, largest first. Equal values may
      come in any order, as they may from argsort; this picks them by
      repeated maximum search. */
  method TopKIndices(row: Row, k: int) returns (idx: seq<nat>)
    ensures IsTopK(row, KeepCount(k, |row|), idx)
    ensures Descending(row, idx)
  {
    var n := |row|;
    TailSlice(n, k);
    var c := |NegStepSlice(n, -1, -k - 1)|;
    idx := [];
    var rest: seq<nat> := seq(n, j requires 0 <= j < n => j);
    forall j | 0 <= j < n
      ensures j in rest
    {
      assert rest[j] == j;
    }
    while |idx| < c
      invariant c == KeepCount(k, n) && |idx| <= c
      invariant Selecting(row, idx, rest)
    {
      var best := ArgMax(row, rest);
      SelectingStep(row, idx, rest, best);
      idx, rest := idx + [rest[best]], rest[..best] + rest[best + 1..];
    }
  }

  /** `adjacency[s, r, idx] = row[idx]` with every other entry untouched. */
  method WriteRow(adj: array3<real>, s: nat, r: nat, row: Row, idx: seq<nat>)
    requires s < adj.Length0 && r < adj.Length1 && |row| == adj.Length2
    requires forall t | 0 <= t < |idx| :: idx[t] < |row|
    modifies adj
    ensures forall j | 0 <= j < adj.Length2 :: adj[s, r, j] == if j in idx then row[j] else old(adj[s, r, j])
    ensures forall s', i, j | 0 <= s' < adj.Length0 && 0 <= i < adj.Length1 && 0 <= j < adj.Length2 && (s' != s || i != r) ::
      adj[s', i, j] == old(adj[s', i, j])
  {
    var t := 0;
    while t < |idx|
      invariant 0 <= t <= |idx|
      invariant forall j | 0 <= j < adj.Length2 :: adj[s, r, j] == if j in idx[..t] then row[j] else old(adj[s, r, j])
      invariant forall s', i, j | 0 <= s' < adj.Length0 && 0 <= i < adj.Length1 && 0 <= j < adj.Length2 && (s' != s || i != r) ::
        adj[s', i, j] == old(adj[s', i, j])
    {
      adj[s, r, idx[t]] := row[idx[t]];
      assert idx[..t + 1] == idx[..t] + [idx[t]];
      t := t + 1;
    }
    assert idx[..t] == idx;
  }

  /** Lines 12-14 for subject s: every row of `g` keeps its top columns in
      the zeroed slice adj[s]. Returns the selection it made. */
  method KeepTopK(g: Matrix, k: int, adj: array3<real>, s: nat) returns (ghost sel: seq<seq<nat>>)
    requires IsMatrix(g, adj.Length1, adj.Length2) && adj.Length1 == adj.Length2
    requires s < adj.Length0
    requires forall i, j | 0 <= i < adj.Length1 && 0 <= j < adj.Length2 :: adj[s, i, j] == 0.0
    modifies adj
    ensures IsKnnSelection(g, k, sel)
    ensures forall i, j | 0 <= i < adj.Length1 && 0 <= j < adj.Length2 :: adj[s, i, j] == Kept(g, sel)[i][j]
    ensures forall s', i, j | 0 <= s' < adj.Length0 && s' != s && 0 <= i < adj.Length1 && 0 <= j < adj.Length2 ::
      adj[s', i, j] == old(adj[s', i, j])
  {
    var n := adj.Length1;
    sel := [];
    var r := 0;
    while r < n
      invariant 0 <= r <= n && |sel| == r
      invariant forall i | 0 <= i < r :: IsTopK(g[i], KeepCount(k, n), sel[i]) && Descending(g[i], sel[i])
      invariant forall i, j | 0 <= i < r && 0 <= j < n :: adj[s, i, j] == if j in sel[i] then g[i][j] else 0.0
      invariant forall i, j | r <= i < n && 0 <= j < n :: adj[s, i, j] == 0.0
      invariant forall s', i, j | 0 <= s' < adj.Length0 && s' != s && 0 <= i < n && 0 <= j < n ::
        adj[s', i, j] == old(adj[s', i, j])
    {
      var idx := TopKIndices(g[r], k);
      WriteRow(adj, s, r, g[r], idx);
      sel := sel + [idx];
      r := r + 1;
    }
  }

  /** Line 15 for subject s: `adjacency[s] = adjacency[s] + adjacency[s].T`.
      The right-hand side is a new array, so every sum sees the old slice. */
  method SymmetrizeSlice(adj: array3<real>, s: nat)
    requires s < adj.Length0 && adj.Length1 == adj.Length2
    modifies adj
    ensures forall i, j | 0 <= i < adj.Length1 && 0 <= j < adj.Length2 :: adj[s, i, j] == old(adj[s, i, j]) + old(adj[s, j, i])
    ensures forall s', i, j | 0 <= s' < adj.Length0 && s' != s && 0 <= i < adj.Length1 && 0 <= j < adj.Length2 ::
      adj[s', i, j] == old(adj[s', i, j])
  {
    var n := adj.Length1;
    var sum := new real[n, n]((i, j) reads adj requires 0 <= i < n && 0 <= j < n => adj[s, i, j] + adj[s, j, i]);
    var i := 0;
    while i < n
      invariant 0 <= i <= n
      invariant forall i', j | 0 <= i' < n && 0 <= j < n :: sum[i', j] == old(adj[s, i', j]) + old(adj[s, j, i'])
      invariant forall i', j | 0 <= i' < i && 0 <= j < n :: adj[s, i', j] == sum[i', j]
      invariant forall i', j | i <= i' < n && 0 <= j < n :: adj[s, i', j] == old(adj[s, i', j])
      invariant forall s', i', j | 0 <= s' < adj.Length0 && s' != s && 0 <= i' < n && 0 <= j < n ::
        adj[s', i', j] == old(adj[s', i', j])
    {
      var j := 0;
      while j < n
        invariant 0 <= j <= n
        invariant forall i', j' | 0 <= i' < n && 0 <= j' < n :: sum[i', j'] == old(adj[s, i', j']) + old(adj[s, j', i'])
        invariant forall i', j' | 0 <= i' < i && 0 <= j' < n :: adj[s, i', j'] == sum[i', j']
        invariant forall j' | 0 <= j' < j :: adj[s, i, j'] == sum[i, j']
        invariant forall j' | j <= j' < n :: adj[s, i, j'] == old(adj[s, i, j'])
        invariant forall i', j' | i < i' < n && 0 <= j' < n :: adj[s, i', j'] == old(adj[s, i', j'])
        invariant forall s', i', j' | 0 <= s' < adj.Length0 && s' != s && 0 <= i' < n && 0 <= j' < n ::
          adj[s', i', j'] == old(adj[s', i', j'])
      {
        adj[s, i, j] := sum[i, j];
        j := j + 1;
      }
      i := i + 1;
    }
  }

  /** `Adjacency_KNN(fc_data, k)`. k == 0 gives a copy of the input;
      otherwise every subject s becomes KnnGraph(data[s], sel[s]) for a
      top selection sel[s] of its rows, which the ghost result names. */
  method AdjacencyKnn(data: Tensor, k: int) returns (adj: array3<real>, ghost sel: seq<seq<seq<nat>>>)
    requires IsCube(data)
    ensures fresh(adj)
    ensures adj.Length0 == |data| && adj.Length1 == Rows(data) && adj.Length2 == Rows(data)
    ensures k == 0 ==> forall s, i, j | 0 <= s < |data| && 0 <= i < Rows(data) && 0 <= j < Rows(data) ::
      adj[s, i, j] == data[s][i][j]
    ensures k != 0 ==>
      |sel| == |data| &&
      (forall s | 0 <= s < |data| :: IsKnnSelection(data[s], k, sel[s])) &&
      (forall s, i, j | 0 <= s < |data| && 0 <= i < Rows(data) && 0 <= j < Rows(data) ::
        adj[s, i, j] == KnnGraph(data[s], sel[s])[i][j])
  {
    var n := Rows(data);
    if k == 0 {
      adj := new real[|data|, n, n]((s, i, j) requires 0 <= s < |data| && 0 <= i < n && 0 <= j < n => data[s][i][j]);
      sel := [];
      return;
    }
    adj := new real[|data|, n, n]((s, i, j) => 0.0);
    sel := [];
    var s := 0;
    while s < |data|
      invariant 0 <= s <= |data| && |sel| == s
      invariant forall s' | 0 <= s' < s :: IsKnnSelection(data[s'], k, sel[s'])
      invariant forall s', i, j | 0 <= s' < s && 0 <= i < n && 0 <= j < n :: adj[s', i, j] == KnnGraph(data[s'], sel[s'])[i][j]
      invariant forall s', i, j | s <= s' < |data| && 0 <= i < n && 0 <= j < n :: adj[s', i, j] == 0.0
    {
      ghost var rows := KeepTopK(data[s], k, adj, s);
      SymmetrizeSlice(adj, s);
      assert forall i, j | 0 <= i < n && 0 <= j < n :: adj[s, i, j] == KnnGraph(data[s], rows)[i][j];
      sel := sel + [rows];
      s := s + 1;
    }
  }
}
