/** `Binary_adjacency`: the 0/1 mask of the nonzero entries of a stack of
    adjacency matrices. */
module Binary {
  import opened Tensors

  /** The mask value of one entry. */
  function Indicator(x: real): (b: real)
    ensures b == 0.0 || b == 1.0
    ensures b == 1.0 <==> x != 0.0
  {
    if x != 0.0 then 1.0 else 0.0
  }

  /** The mask of a whole stack: the input's shape, only 0 and 1, and 1
      exactly where the input is nonzero. */
  function Mask(t: Tensor): (b: Tensor)
    ensures |b| == |t|
    ensures forall s | 0 <= s < |t| :: |b[s]| == |t[s]| && forall i | 0 <= i < |t[s]| :: |b[s][i]| == |t[s][i]|
    ensures forall s, i, j | 0 <= s < |t| && 0 <= i < |t[s]| && 0 <= j < |t[s][i]| ::
      (b[s][i][j] == 0.0 || b[s][i][j] == 1.0) && (b[s][i][j] == 1.0 <==> t[s][i][j] != 0.0)
  {
    seq(|t|, s requires 0 <= s < |t| =>
      seq(|t[s]|, i requires 0 <= i < |t[s]| =>
        seq(|t[s][i]|, j requires 0 <= j < |t[s][i]| => Indicator(t[s][i][j]))))
  }

  /** A mask is its own mask. */
  lemma MaskIdempotent(t: Tensor)
    ensures Mask(Mask(t)) == Mask(t)
  {
    var m := Mask(t);
    forall s | 0 <= s < |t|
      ensures Mask(m)[s] == m[s]
    {
      forall i | 0 <= i < |t[s]|
        ensures Mask(m)[s][i] == m[s][i]
      {
        assert forall j | 0 <= j < |t[s][i]| :: Indicator(m[s][i][j]) == m[s][i][j];
      }
    }
  }

  /** `Binary_adjacency(cor_adjacency)`: a fresh array of the input's shape
      holding the mask, written entry by entry. */
  method BinaryAdjacency(t: Tensor) returns (b: array3<real>)
    requires IsBox(t)
    ensures fresh(b)
    ensures b.Length0 == |t| && b.Length1 == Rows(t) && b.Length2 == Cols(t)
    ensures forall s, i, j | 0 <= s < |t| && 0 <= i < Rows(t) && 0 <= j < Cols(t) :: b[s, i, j] == Mask(t)[s][i][j]
  {
    var rows, cols := Rows(t), Cols(t);
    b := new real[|t|, rows, cols]((s, i, j) => 0.0);
    var s := 0;
    while s < |t|
      invariant 0 <= s <= |t|
      invariant forall s', i, j | 0 <= s' < s && 0 <= i < rows && 0 <= j < cols :: b[s', i, j] == Indicator(t[s'][i][j])
    {
      var row := 0;
      while row < rows
        invariant 0 <= row <= rows
        invariant forall s', i, j | 0 <= s' < s && 0 <= i < rows && 0 <= j < cols :: b[s', i, j] == Indicator(t[s'][i][j])
        invariant forall i, j | 0 <= i < row && 0 <= j < cols :: b[s, i, j] == Indicator(t[s][i][j])
      {
        var col := 0;
        while col < cols
          invariant 0 <= col <= cols
          invariant forall s', i, j | 0 <= s' < s && 0 <= i < rows && 0 <= j < cols :: b[s', i, j] == Indicator(t[s'][i][j])
          invariant forall i, j | 0 <= i < row && 0 <= j < cols :: b[s, i, j] == Indicator(t[s][i][j])
          invariant forall j | 0 <= j < col :: b[s, row, j] == Indicator(t[s][row][j])
        {
          b[s, row, col] := if t[s][row][col] != 0.0 then 1.0 else 0.0;
          col := col + 1;
        }
        row := row + 1;
      }
      s := s + 1;
    }
  }
}
