# Graph-construction and training utilities of Cf_BCL, in Dafny

Cf_BCL classifies brain networks. Each subject is a square connectivity
matrix, and the whole data set is a stack of them shaped
(subjects, n, n). `utils.py` turns that stack into graphs and helps the
training loop. This project models the four routines that do so:

- **`Adjacency_KNN`** keeps only the `k` largest entries of every row of
  every subject's matrix. It builds the graph by adding each pruned matrix
  to its own transpose. With `k == 0` it returns a copy of the input.
- **`Binary_adjacency`** turns a stack of weighted graphs into its 0/1
  mask of nonzero entries.
- **`getEdgeIdxAttr`** turns a dense adjacency tensor of rank 2 or 3, with
  equal last two extents, into the stacked coordinate index of its nonzero
  entries and the vector of their values, in row-major order.
- **`adjust_learning_rate`** writes the step-decay rate
  `learning_rate * lrdec_1 ** (epoch // lrdec_2)` into every parameter
  group of an optimizer.

Modules:

| file | module | holds |
|---|---|---|
| `lists.dfy` | `Lists` | sequences without repeats and their element sets |
| `arith.dfy` | `Arith` | small facts about `*`, `/` and `%` on naturals |
| `tensors.dfy` | `Tensors` | stacks of matrices as nested sequences, and their shapes |
| `knn.dfy` | `Knn` | `Adjacency_KNN`: the slice, the top-k selection, the symmetric graph, and the in-place builder |
| `binary.dfy` | `Binary` | `Binary_adjacency` |
| `edges.dfy` | `SparseEdges` | `getEdgeIdxAttr`, row-major layout, and scattering back to dense |
| `learning_rate.dfy` | `LearningRate` | `adjust_learning_rate`, the optimizer's parameter groups, and the schedule |

How the source's data is represented:

- The NumPy inputs are read-only values of type `seq<seq<seq<real>>>`.
- Each array made by `np.zeros(shape)` and then filled is a fresh
  `array3<real>` that the method's loops write.
- A torch tensor is a `Dense` value: its shape together with its entries,
  flattened in row-major order. Because the rank is explicit, both
  `assert` statements of `getEdgeIdxAttr` are modelled as error results.
- The optimizer is a class. It holds a sequence of `ParamGroup` objects,
  and each group's dict is a `map`. The method updates that map in place,
  and one dict may appear in the list more than once.

Which entries `Adjacency_KNN` keeps is given by the slice
`np.argsort(graph)[:, -1:-k-1:-1]`. The model follows Python's slice
normalisation for a negative step:

- for `k >= 0` the slice keeps `min(k, n)` columns;
- for `k < 0` it keeps `max(0, n + k)` columns.

`argsort` does not fix the order of equal values, so "the kept columns"
is defined by a relation, `Knn.IsTopK`:

- the right number of distinct columns;
- no dropped value above a kept one.

`Knn.ArgsortTopIsTopK` proves that the reversed tail of any ascending
argsort order satisfies that relation, listed largest first.
`Knn.TopKIsArgsortTop` proves the converse: every such selection is the
slice of some ascending argsort order. `Knn.TopKIndices` computes one
selection by repeated maximum search. The default `k = 5`, the value
`load_data` passes, is `Knn.DefaultK`.

The source orders entries by their signed value, not by magnitude, and
the model does the same. With negative values, a kept
position can hold a zero or negative entry. The promise that "each row
keeps `k` entries" is therefore about positions, not about nonzero
entries.

## Model

| member | source | states |
|---|---|---|
| Knn.ArgsortTop | utils.py:12 | `order[-1:-k-1:-1]` has KeepCount(k, n) entries, and entry t is order[n - 1 - t] |
| Knn.TailSlice | utils.py:12 | the slice `[-1:-k-1:-1]` of a length-n axis, with Python's negative-step normalisation, is the positions n-1, n-2, ... of length KeepCount(k, n) <= n |
| Knn.ArgsortTopIsTopK | utils.py:12 | for any ascending argsort order of a row, the reversed tail picked by the slice is a top-k selection: KeepCount distinct in-range columns, none dropped having a larger value than a kept one, listed largest first |
| Knn.TopKIsArgsortTop | utils.py:12 | every top-k selection listed largest first is exactly the slice of some ordering argsort may return, so the selections AdjacencyKnn allows are the ones argsort can give |
| Knn.SelectedByRank | utils.py:12 | when a row has no repeated value, a column is in a top selection of c columns exactly when fewer than c columns have a larger value |
| Knn.TopKUniqueWithoutTies | utils.py:12 | when a row has no repeated value, every top-k selection keeps the same set of columns, so only tie order is left open |
| Knn.ArgMax | utils.py:12 | the position in the remaining columns of a largest value, and the first such |
| Knn.TopKIndices | utils.py:12 | one row's selection by repeated maximum search is a top-k selection of KeepCount(k, n) columns in descending order of value |
| Knn.WriteRow | utils.py:14 | `adjacency[s, r, idx] = row[idx]`: the chosen columns of row r get the row's values; every other entry of the array is unchanged |
| Knn.KeepTopK | utils.py:12-14 | after the pass over one subject, each row holds its original values at its top-k columns and 0 elsewhere; the other subjects are unchanged |
| Knn.SymmetrizeSlice | utils.py:15 | `adjacency[s] = adjacency[s] + adjacency[s].T`: entry (i, j) becomes old (i, j) + old (j, i); the other subjects are unchanged |
| Knn.Kept | utils.py:13-14 | the pruned matrix has the input's shape; an entry is nonzero exactly when its column is selected and the input entry is nonzero, and selected entries equal the input's |
| Knn.KeptRow | utils.py:12-14 | a pruned row keeps exactly KeepCount(k, n) positions, holds the original entry there and 0 elsewhere, and no dropped entry is larger than a kept one |
| Knn.Symmetrized | utils.py:15 | a square matrix plus its transpose is square and symmetric |
| Knn.KnnGraph | utils.py:12-15 | the k-NN graph of one subject is square and symmetric, and a nonzero entry (i, j) means j was kept in row i or i was kept in row j |
| Knn.KnnEdgeOfSymmetric | utils.py:12-15 | for a symmetric input, entry (i, j) of the graph is nonzero exactly when the input entry is nonzero and j was kept in row i or i was kept in row j |
| Knn.AdjacencyKnn | utils.py:7-16 | `Adjacency_KNN(fc_data, k)`: a fresh array of the input's shape; for k == 0 a copy of the input; otherwise, for every subject, the symmetric graph of a top-k selection of each row |
| Binary.Indicator | utils.py:23 | `1 if x != 0 else 0` is 0 or 1, and 1 exactly when x is nonzero |
| Binary.Mask | utils.py:18-24 | the mask has the input's shape, holds only 0 and 1, and is 1 exactly where the input is nonzero |
| Binary.MaskIdempotent | utils.py:23 | masking a mask changes nothing |
| Binary.BinaryAdjacency | utils.py:18-24 | `Binary_adjacency(cor_adjacency)`: a fresh array of the input's shape whose every entry is the mask of the input entry |
| SparseEdges.Unravel | utils.py:53 | a flat row-major offset below the size of the tensor has one coordinate inside the shape, and ravelling that coordinate gives the offset back |
| SparseEdges.RavelInverse | utils.py:53 | ravelling an in-bounds coordinate gives an offset below the size of the tensor, and unravelling that offset gives the coordinate back |
| SparseEdges.RavelOrdersLex | utils.py:53 | one row-major offset is below another exactly when its coordinate comes before the other's in lexicographic order |
| SparseEdges.NonzeroFrom | utils.py:53 | the offsets of the nonzero entries are in range, hold nonzeros, strictly increase and miss no nonzero entry |
| SparseEdges.Coordinates | utils.py:53-56 | the stacked index `torch.stack(nonzero(as_tuple=True))` has one row per dimension, each as long as the list of offsets, and its column t is the coordinate of offset t |
| SparseEdges.Gather | utils.py:54 | `adj[index]` lists, in order, the entries at the given offsets |
| SparseEdges.GetEdgeIdxAttr | utils.py:49-56 | fails exactly when the rank is not 2 or 3 or the last two extents differ, reporting RankOutOfRange when the rank check fails and LastDimsDiffer otherwise; on success the index has one row per dimension and is as long as the attribute vector |
| SparseEdges.EdgesSound | utils.py:53-54 | every listed column of the index is an in-bounds coordinate whose entry is nonzero, and `edge_attr[t] == adj[index[:, t]]` |
| SparseEdges.EdgesComplete | utils.py:53 | every nonzero entry of the tensor is listed in the index |
| SparseEdges.EdgesIncreasing | utils.py:53 | the listed coordinates ravel to the offsets of the nonzero entries, which strictly increase |
| SparseEdges.LexSorted | utils.py:53 | a listing whose offsets increase has its coordinates in strictly increasing lexicographic order, which is row-major order |
| SparseEdges.DenseRoundTrip | utils.py:49-56 | scattering the result of getEdgeIdxAttr back into a tensor of the input's shape reconstructs the input |
| SparseEdges.ScatterNonzeros | utils.py:53-54 | scattering a listing with increasing offsets and nonzero values gives a tensor whose nonzero offsets are exactly those offsets, each holding its value |
| SparseEdges.CoordinatesOfOffsets | utils.py:53 | unravelling the offsets of a well-shaped listing gives back its index |
| SparseEdges.EdgesOfNonzeros | utils.py:49-56 | on a tensor that passes both checks, getEdgeIdxAttr succeeds with the coordinates of the nonzero offsets and the entries stored there |
| SparseEdges.SparseRoundTrip | utils.py:49-56 | a listing in getEdgeIdxAttr's form (rank 2 or 3, equal last extents, increasing row-major order, nonzero values) comes back unchanged from getEdgeIdxAttr after scattering to dense |
| LearningRate.StepDecayRate | utils.py:59 | `learning_rate * lrdec_1 ** (epoch // lrdec_2)` equals the base rate before epoch lrdec_2, and with a non-negative base and a factor in [0, 1] it lies between 0 and the base rate |
| LearningRate.AdjustLearningRate | utils.py:58-61 | every parameter group's "lr" becomes learning_rate * lrdec_1^(epoch div lrdec_2); nothing else in any group changes, and the list of groups stays the same |
| LearningRate.StepDecayClosedForm | utils.py:59 | at epoch m * lrdec_2 + r with r < lrdec_2 the rate is learning_rate * lrdec_1^m |
| LearningRate.StepDecayNextPeriod | utils.py:59 | lrdec_2 epochs later the rate is lrdec_1 times what it was |
| LearningRate.StepDecayNonIncreasing | utils.py:59 | with a non-negative base and a factor in [0, 1], the rate is non-negative and never grows with the epoch |
| LearningRate.DefaultSchedule | utils.py:58-59 | with the defaults lrdec_1 = 0.5 and lrdec_2 = 10, a base of 0.1 stays 0.1 at epoch 0 and is 0.05 at epoch 10 |

## Left out

- `load_data`, `normalization`, `kmeans_plus`, `binaryPartition` and `setup_seed` are not part of this model. They read `.mat` files, call scikit-learn's k-means, or seed random generators.
- Floating point: entries and rates are exact reals. The model has no rounding, NaN or infinities. So `x != 0` and the comparisons behind `argsort` are exact.
- The order `np.argsort` gives to equal values is not modelled. Any ascending order is allowed, and the model states what every such order makes the slice keep.
- Knn.AdjacencyKnn: requires a rank-3 stack of square matrices. With `k == 0` the source copies an input of any shape, and the model covers that copy only for such stacks. With `k != 0`, a rank-3 stack whose last two extents differ makes NumPy raise at the transpose on line 15, and that error path is not modelled. Inputs of other ranks are outside the model.
- Knn.KnnEdgeOfSymmetric: it is stated only for a symmetric input, because for other input two kept entries of opposite sign can cancel to 0.
- Binary.BinaryAdjacency: requires every subject to have one common shape, as any NumPy array does. Nested sequences with rows of differing length are not inputs the source can receive.
- Tensors: a tensor with no subject, or with subjects that have no row, gets 0 as every later extent. A NumPy array of shape (0, n, n) is therefore represented only up to its first extent.
- SparseEdges.Scatter: it models the inverse that the round-trip lemmas need, `zeros(shape)[tuple(index)] = attr`. For repeated coordinates the last write wins. torch leaves that case unspecified, and getEdgeIdxAttr never lists a coordinate twice.
- LearningRate.AdjustLearningRate: requires `lrdec_2 > 0`, a natural number. A period of 0 makes the source raise ZeroDivisionError. A negative period gives a non-positive exponent. Neither is modelled, and neither is a non-integer period. `epoch` is a natural number, so the floor division of a negative epoch is not modelled either.
- LearningRate: only numeric dict values are modelled. Any other value in a parameter group is the opaque `Other` setting, which the method keeps as it is.
- The device and dtype of torch tensors are not modelled. Neither is the fact that `np.zeros` makes a float64 array from integer input.
