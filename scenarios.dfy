/** Concrete uses of the tensor: what the general contracts pin down for
    small inputs. */
module Scenarios {
  import Layout
  import Shape
  import Tensors

  /** A 2-channel 2 x 3 tensor filled row-major with 0..11 gives 0..11 back
      from values(true), and keeps them through a flattening reshape. */
  method FillTwoPlanes() returns (filled: seq<int>, flattened: seq<int>)
    ensures filled == [0, 1, 2, 3, 4, 5, 6, 7, 8, 9, 10, 11]
    ensures flattened == filled
  {
    var t := new Tensors.Tensor<int>.OfCube(2, 2, 3);
    var input := [0, 1, 2, 3, 4, 5, 6, 7, 8, 9, 10, 11];
    t.FillValues(input, true);
    filled := t.Values(true);
    t.Flatten(true);
    flattened := t.Values(true);
  }

  /** Reshaping a 2 x 3 matrix to 3 x 2 row-major keeps values(true), and the
      shape vector and the cube follow the requested shape. */
  method ReshapeMatrix() returns (shape: seq<nat>, rows: nat, cols: nat, values: seq<int>)
    ensures shape == [3, 2] && rows == 3 && cols == 2
    ensures values == [0, 1, 2, 3, 4, 5]
  {
    var t := new Tensors.Tensor<int>.OfMatrix(2, 3);
    var input := [0, 1, 2, 3, 4, 5];
    t.FillValues(input, true);
    Shape.ProductSmall([3, 2]);
    t.Reshape([3, 2], true);
    shape, rows, cols := t.Shapes(), t.Rows(), t.Cols();
    values := t.Values(true);
  }

  /** Reshaping to another shape of the same element count and back, with the
      same order flag both times, restores the shape and the values: the
      row-major values when rowMajor is set, the buffer itself otherwise. */
  method ReshapeThereAndBack(t: Tensors.Tensor<int>, other: seq<nat>, rowMajor: bool)
    requires t.Valid() && t.HasElements()
    requires 1 <= |other| <= 3 && Shape.Product(other) == t.Size()
    modifies t, t.data
    ensures t.Valid() && t.data == old(t.data) && t.rawShape == old(t.rawShape)
    ensures !rowMajor ==> t.data[..] == old(t.data[..])
    ensures rowMajor ==> Layout.ToRowMajor(t.data[..], t.nRows, t.nCols, t.nSlices)
                         == old(Layout.ToRowMajor(t.data[..], t.nRows, t.nCols, t.nSlices))
  {
    var original := t.Shapes();
    t.Reshape(other, rowMajor);
    t.Reshape(original, rowMajor);
  }
}
