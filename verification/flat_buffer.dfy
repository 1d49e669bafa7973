/**
 * Matrices in transit. The leader writes its result into a flat buffer row
 * after row (the loop at the end of `multiplyMatrix`), and `fillMatrix`
 * turns a received flat buffer back into SIZE rows by appending `B[i + j]`
 * to row i, which builds a Hankel matrix out of the first 2*SIZE - 1
 * entries rather than cutting the buffer into rows.
 */
module FlatBuffer {
  import opened MatrixSpec

  /** `SIZE`: the dimension of every matrix of a run. */
  const SIZE: nat := 6

  /** R has at least SIZE rows, and each of the first SIZE has at least SIZE entries. */
  predicate HasBlock(R: Matrix)
  {
    |R| >= SIZE && forall i :: 0 <= i < SIZE ==> |R[i]| >= SIZE
  }

  /** The first SIZE entries of each of the first k rows, one row after another. */
  function RowMajorPrefix(R: Matrix, k: nat): (flat: seq<int>)
    requires HasBlock(R) && k <= SIZE
    ensures |flat| == k * SIZE
  {
    if k == 0 then [] else RowMajorPrefix(R, k - 1) + R[k - 1][..SIZE]
  }

  /** The flat buffer of the SIZE-by-SIZE block of R, in row-major order. */
  function RowMajor(R: Matrix): (flat: seq<int>)
    requires HasBlock(R)
    ensures |flat| == SIZE * SIZE
  {
    RowMajorPrefix(R, SIZE)
  }

  lemma {:induction false} RowMajorPrefixAt(R: Matrix, k: nat, i: nat, j: nat)
    requires HasBlock(R) && k <= SIZE && i < k && j < SIZE
    ensures RowMajorPrefix(R, k)[i * SIZE + j] == R[i][j]
  {
    if i < k - 1 {
      RowMajorPrefixAt(R, k - 1, i, j);
    }
  }

  /** Entry i * SIZE + j of the flat buffer is entry (i, j) of the matrix. */
  lemma RowMajorAt(R: Matrix, i: nat, j: nat)
    requires HasBlock(R) && i < SIZE && j < SIZE
    ensures RowMajor(R)[i * SIZE + j] == R[i][j]
  {
    RowMajorPrefixAt(R, SIZE, i, j);
  }

  /**
   * The loop `for i, j < SIZE: resultArray.push_back(result[i][j])`: the
   * buffer grows by the result in row-major order, SIZE * SIZE entries.
   */
  method Flatten(result: Matrix, resultArray: seq<int>) returns (out: seq<int>)
    requires HasBlock(result)
    ensures out == resultArray + RowMajor(result)
    ensures |out| == |resultArray| + SIZE * SIZE
    ensures forall i, j :: 0 <= i < SIZE && 0 <= j < SIZE ==> out[|resultArray| + i * SIZE + j] == result[i][j]
  {
    out := resultArray;
    for i := 0 to SIZE
      invariant out == resultArray + RowMajorPrefix(result, i)
    {
      for j := 0 to SIZE
        invariant out == resultArray + RowMajorPrefix(result, i) + result[i][..j]
      {
        out := out + [result[i][j]];
        assert result[i][..j + 1] == result[i][..j] + [result[i][j]];
      }
    }
    forall i, j | 0 <= i < SIZE && 0 <= j < SIZE
      ensures out[|resultArray| + i * SIZE + j] == result[i][j]
    {
      RowMajorAt(result, i, j);
    }
  }

  /** The matrix `fillMatrix` builds from B: entry (i, j) is B[i + j]. */
  function Hankel(B: seq<int>): (H: Matrix)
    requires |B| >= 2 * SIZE - 1
    ensures IsMatrix(H, SIZE, SIZE)
  {
    seq(SIZE, i requires 0 <= i < SIZE => B[i..i + SIZE])
  }

  /** `fillMatrix` looks at nothing past B[2 * SIZE - 2]. */
  lemma HankelReadsPrefix(B: seq<int>)
    requires |B| >= 2 * SIZE - 1
    ensures Hankel(B) == Hankel(B[..2 * SIZE - 1])
  {
    var P := B[..2 * SIZE - 1];
    forall i | 0 <= i < SIZE
      ensures Hankel(B)[i] == Hankel(P)[i]
    {
      assert B[i..i + SIZE] == P[i..i + SIZE];
    }
  }

  /**
   * `fillMatrix(matrixB, B)`: row i (i < SIZE) gets B[i], ..., B[i + SIZE - 1]
   * appended; rows past SIZE are left alone. `B` is only read.
   */
  method FillMatrix(matrix: Matrix, B: seq<int>) returns (filled: Matrix)
    requires |matrix| >= SIZE && |B| >= 2 * SIZE - 1
    ensures |filled| == |matrix|
    ensures forall i :: 0 <= i < SIZE ==> filled[i] == matrix[i] + Hankel(B)[i]
    ensures forall i :: SIZE <= i < |matrix| ==> filled[i] == matrix[i]
    ensures (forall i :: 0 <= i < |matrix| ==> matrix[i] == []) && |matrix| == SIZE ==> filled == Hankel(B)
  {
    filled := matrix;
    for i := 0 to SIZE
      invariant |filled| == |matrix|
      invariant forall r :: 0 <= r < i ==> filled[r] == matrix[r] + B[r..r + SIZE]
      invariant forall r :: i <= r < |matrix| ==> filled[r] == matrix[r]
    {
      for j := 0 to SIZE
        invariant |filled| == |matrix|
        invariant forall r :: 0 <= r < i ==> filled[r] == matrix[r] + B[r..r + SIZE]
        invariant filled[i] == matrix[i] + B[i..i + j]
        invariant forall r :: i < r < |matrix| ==> filled[r] == matrix[r]
      {
        filled := filled[i := filled[i] + [B[i + j]]];
        assert B[i..i + j + 1] == B[i..i + j] + [B[i + j]];
      }
    }
    if (forall i :: 0 <= i < |matrix| ==> matrix[i] == []) && |matrix| == SIZE {
      forall i | 0 <= i < SIZE
        ensures filled[i] == Hankel(B)[i]
      {
        assert matrix[i] == [];
      }
    }
  }

  /** What the server's `fillMatrix` shows of a row-major result R: entry (i, j) is R[(i + j) / SIZE][(i + j) % SIZE]. */
  lemma HankelOfRowMajor(R: Matrix, i: nat, j: nat)
    requires HasBlock(R) && i < SIZE && j < SIZE
    ensures Hankel(RowMajor(R))[i][j] == R[(i + j) / SIZE][(i + j) % SIZE]
  {
    RowMajorAt(R, (i + j) / SIZE, (i + j) % SIZE);
  }

  /** Flatten-then-fill is not the identity: any R with R[0][1] != R[1][0] comes back changed. */
  lemma FillAfterFlattenDiffers(R: Matrix)
    requires IsMatrix(R, SIZE, SIZE) && R[0][1] != R[1][0]
    ensures Hankel(RowMajor(R)) != R
  {
    HankelOfRowMajor(R, 1, 0);
  }

  /** Row-major slicing of a flat buffer: row i is B[i * SIZE], ..., B[i * SIZE + SIZE - 1]. */
  function Unflatten(B: seq<int>): (M: Matrix)
    requires |B| >= SIZE * SIZE
    ensures IsMatrix(M, SIZE, SIZE)
  {
    seq(SIZE, i requires 0 <= i < SIZE => B[i * SIZE..i * SIZE + SIZE])
  }

  /**
   * `fillMatrix` with `B[i * SIZE + j]` in place of `B[i + j]`: row i gets the
   * i-th run of SIZE entries of the buffer appended.
   */
  method FillRowMajor(matrix: Matrix, B: seq<int>) returns (filled: Matrix)
    requires |matrix| >= SIZE && |B| >= SIZE * SIZE
    ensures |filled| == |matrix|
    ensures forall i :: 0 <= i < SIZE ==> filled[i] == matrix[i] + Unflatten(B)[i]
    ensures forall i :: SIZE <= i < |matrix| ==> filled[i] == matrix[i]
    ensures (forall i :: 0 <= i < |matrix| ==> matrix[i] == []) && |matrix| == SIZE ==> filled == Unflatten(B)
  {
    filled := matrix;
    for i := 0 to SIZE
      invariant |filled| == |matrix|
      invariant forall r :: 0 <= r < i ==> filled[r] == matrix[r] + B[r * SIZE..r * SIZE + SIZE]
      invariant forall r :: i <= r < |matrix| ==> filled[r] == matrix[r]
    {
      for j := 0 to SIZE
        invariant |filled| == |matrix|
        invariant forall r :: 0 <= r < i ==> filled[r] == matrix[r] + B[r * SIZE..r * SIZE + SIZE]
        invariant filled[i] == matrix[i] + B[i * SIZE..i * SIZE + j]
        invariant forall r :: i < r < |matrix| ==> filled[r] == matrix[r]
      {
        filled := filled[i := filled[i] + [B[i * SIZE + j]]];
        assert B[i * SIZE..i * SIZE + j + 1] == B[i * SIZE..i * SIZE + j] + [B[i * SIZE + j]];
      }
    }
    if (forall i :: 0 <= i < |matrix| ==> matrix[i] == []) && |matrix| == SIZE {
      forall i | 0 <= i < SIZE
        ensures filled[i] == Unflatten(B)[i]
      {
        assert matrix[i] == [];
      }
    }
  }

  /** Row-major slicing undoes row-major flattening. */
  lemma UnflattenRowMajor(R: Matrix)
    requires IsMatrix(R, SIZE, SIZE)
    ensures Unflatten(RowMajor(R)) == R
  {
    var U := Unflatten(RowMajor(R));
    forall i | 0 <= i < SIZE
      ensures U[i] == R[i]
    {
      forall j | 0 <= j < SIZE
        ensures U[i][j] == R[i][j]
      {
        RowMajorAt(R, i, j);
      }
    }
  }

  /** Row-major flattening undoes row-major slicing. */
  lemma RowMajorUnflatten(B: seq<int>)
    requires |B| == SIZE * SIZE
    ensures RowMajor(Unflatten(B)) == B
  {
    var U := Unflatten(B);
    forall p | 0 <= p < SIZE * SIZE
      ensures RowMajor(U)[p] == B[p]
    {
      var i, j := p / SIZE, p % SIZE;
      RowMajorAt(U, i, j);
      assert p == i * SIZE + j;
    }
  }
}
