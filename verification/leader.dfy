/**
 * The computing part of `multiplyMatrix`, run by the leader of a worker
 * group: turn the two received flat buffers into matrices with `fillMatrix`,
 * multiply them with `Cannon`, and append the product to `resultArray` in
 * row-major order. Receiving the buffers and sending the result back are
 * message passing and stay outside the model; the buffers are parameters.
 */
module Leader {
  import opened MatrixSpec
  import opened CannonEngine
  import opened FlatBuffer

  /**
   * `multiplyMatrix` after its two receives: `resultArray` grows by the
   * row-major product of the two matrices that `fillMatrix` builds.
   */
  method MultiplyMatrix(A: seq<int>, B: seq<int>, resultArray: seq<int>) returns (out: seq<int>)
    requires |A| >= 2 * SIZE - 1 && |B| >= 2 * SIZE - 1
    ensures out == resultArray + RowMajor(Product(Hankel(A), Hankel(B)))
    ensures |out| == |resultArray| + SIZE * SIZE
  {
    var empty: Matrix := seq(SIZE, _ => []);
    var matrixA := FillMatrix(empty, A);
    var matrixB := FillMatrix(empty, B);
    var result := Cannon(matrixA, matrixB);
    out := Flatten(result, resultArray);
  }
}
