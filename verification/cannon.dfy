/**
 * `Cannon(first, second)`: the rolling multiplication engine. It allocates a
 * zeroed result, makes the pre-skew `Roll` calls, and then, for k, i, j in
 * 0 .. n-1, adds `first[i][m] * second[m][j]` with `m = (i + j + k) % n` to
 * `result[i][j]`, calling `Roll` on row i of `first` and column j of
 * `second` after every addition.
 *
 * Every `Roll` call receives its matrix by value, so none of them changes
 * `first` or `second`: the rolls are made here and their outcome dropped,
 * exactly as in the C++. For a fixed (i, j), m then walks a cyclic
 * permutation of 0 .. n-1 as k runs, and the result is the ordinary product.
 */
module CannonEngine {
  import opened MatrixSpec
  import opened Rotation

  /** Entry (i, j) of the result after the first k passes of the outer loop. */
  function Partial(A: Matrix, B: Matrix, i: nat, j: nat, k: nat): int
    requires IsMatrix(A, |A|, |A|) && IsMatrix(B, |A|, |A|)
    requires i < |A| && j < |A| && k <= |A|
  {
    Sum(Cyclic(Terms(A, B, i, j), i + j)[..k])
  }

  /** Pass k adds the term with m = (i + j + k) % n. */
  lemma PartialStep(A: Matrix, B: Matrix, i: nat, j: nat, k: nat)
    requires IsMatrix(A, |A|, |A|) && IsMatrix(B, |A|, |A|)
    requires i < |A| && j < |A| && k < |A|
    ensures var m := (i + j + k) % |A|;
            Partial(A, B, i, j, k + 1) == Partial(A, B, i, j, k) + A[i][m] * B[m][j]
  {
    SumPrefixStep(Cyclic(Terms(A, B, i, j), i + j), k);
  }

  /** After all n passes entry (i, j) holds the full sum over m of A[i][m] * B[m][j]. */
  lemma PartialComplete(A: Matrix, B: Matrix, i: nat, j: nat)
    requires IsMatrix(A, |A|, |A|) && IsMatrix(B, |A|, |A|)
    requires i < |A| && j < |A|
    ensures Partial(A, B, i, j, |A|) == Product(A, B)[i][j]
  {
    var v := Terms(A, B, i, j);
    assert Cyclic(v, i + j)[..|A|] == Cyclic(v, i + j);
    CyclicSum(v, i + j);
  }

  /**
   * `Cannon(first, second)` for n-by-n operands: the result has `first.size()`
   * rows of `second.size()` entries and is the ordinary product of the two.
   */
  method Cannon(first: Matrix, second: Matrix) returns (result: Matrix)
    requires IsMatrix(first, |first|, |first|) && IsMatrix(second, |first|, |first|)
    ensures IsMatrix(result, |first|, |second|)
    ensures result == Product(first, second)
  {
    var n := |first|;
    result := seq(n, _ => seq(|second|, _ => 0));

    for i := 0 to n {
      Roll(first, Left, i, i);
    }
    for i := 0 to n {
      Roll(second, Up, i, i);
    }

    for k := 0 to n
      invariant IsMatrix(result, n, n)
      invariant forall r, c :: 0 <= r < n && 0 <= c < n ==> result[r][c] == Partial(first, second, r, c, k)
    {
      for i := 0 to n
        invariant IsMatrix(result, n, n)
        invariant forall r, c :: 0 <= r < n && 0 <= c < n ==>
                    result[r][c] == Partial(first, second, r, c, if r < i then k + 1 else k)
      {
        for j := 0 to n
          invariant IsMatrix(result, n, n)
          invariant forall r, c :: 0 <= r < n && 0 <= c < n ==>
                      result[r][c] == Partial(first, second, r, c, if r < i || (r == i && c < j) then k + 1 else k)
        {
          var m := (i + j + k) % n;
          PartialStep(first, second, i, j, k);
          result := result[i := result[i][j := result[i][j] + first[i][m] * second[m][j]]];
          Roll(first, Left, i, 1);
          Roll(second, Up, j, 1);
        }
      }
    }

    forall r | 0 <= r < n
      ensures result[r] == Product(first, second)[r]
    {
      forall c | 0 <= c < n
        ensures result[r][c] == Product(first, second)[r][c]
      {
        PartialComplete(first, second, r, c);
      }
    }
  }
}
