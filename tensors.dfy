/** Dense arrays as the graph builders see them: a stack of per-subject
    matrices indexed [subject][row][column], plus the shape facts every
    NumPy array carries. */
module Tensors {

  type Row = seq<real>
  type Matrix = seq<Row>
  /** [subject][row][column] */
  type Tensor = seq<Matrix>

  /** `m` has `rows` rows of `cols` entries each. */
  predicate IsMatrix(m: Matrix, rows: nat, cols: nat)
  {
    |m| == rows && forall i | 0 <= i < rows :: |m[i]| == cols
  }

  /** shape[1] of a stack of matrices (0 when there is no subject). */
  function Rows(t: Tensor): nat
  {
    if |t| == 0 then 0 else |t[0]|
  }

  /** shape[2] of a stack of matrices (0 when there is no row). */
  function Cols(t: Tensor): nat
  {
    if |t| == 0 || |t[0]| == 0 then 0 else |t[0][0]|
  }

  /** Every subject has the same Rows(t) x Cols(t) shape, as in any ndarray. */
  predicate IsBox(t: Tensor)
  {
    forall s | 0 <= s < |t| :: IsMatrix(t[s], Rows(t), Cols(t))
  }

  /** A stack of square matrices: shape (subjects, n, n). */
  predicate IsCube(t: Tensor)
  {
    IsBox(t) && Rows(t) == Cols(t)
  }

  predicate IsSymmetric(m: Matrix)
    requires IsMatrix(m, |m|, |m|)
  {
    forall i, j | 0 <= i < |m| && 0 <= j < |m| :: m[i][j] == m[j][i]
  }
}
