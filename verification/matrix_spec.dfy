/**
 * Matrices as the program holds them (`std::vector<std::vector<int>>`, passed
 * by value), the ordinary matrix product that the rolling multiplication is
 * meant to compute, and the summation facts the proof of that needs.
 */
module MatrixSpec {

  /** A vector of rows; copying a Matrix copies all of its entries. */
  type Matrix = seq<seq<int>>

  /** `M` has `rows` rows and each of them has `cols` entries. */
  predicate IsMatrix(M: Matrix, rows: nat, cols: nat)
  {
    |M| == rows && forall r :: 0 <= r < rows ==> |M[r]| == cols
  }

  /** `matrix[0].size()`: the width the program reads off the first row. */
  function Width(M: Matrix): nat
  {
    if |M| == 0 then 0 else |M[0]|
  }

  /** Sum of a sequence, taken from the back so that a prefix grows by one term. */
  function Sum(s: seq<int>): int
  {
    if s == [] then 0 else Sum(s[..|s| - 1]) + s[|s| - 1]
  }

  lemma {:induction false} SumPrefixStep(s: seq<int>, k: nat)
    requires k < |s|
    ensures Sum(s[..k + 1]) == Sum(s[..k]) + s[k]
  {
    assert s[..k + 1][..k] == s[..k];
  }

  lemma {:induction false} SumConcat(a: seq<int>, b: seq<int>)
    ensures Sum(a + b) == Sum(a) + Sum(b)
  {
    if b == [] {
      assert a + b == a;
    } else {
      assert (a + b)[..|a + b| - 1] == a + b[..|b| - 1];
      SumConcat(a, b[..|b| - 1]);
    }
  }

  /** The products `A[i][m] * B[m][j]`, for m = 0 .. n-1, that make up entry (i, j) of A·B. */
  function Terms(A: Matrix, B: Matrix, i: nat, j: nat): (t: seq<int>)
    requires IsMatrix(A, |A|, |A|) && IsMatrix(B, |A|, |A|)
    requires i < |A| && j < |A|
    ensures |t| == |A|
  {
    seq(|A|, m requires 0 <= m < |A| => A[i][m] * B[m][j])
  }

  /** The ordinary product of two n-by-n matrices: entry (i, j) is the sum over m of A[i][m] * B[m][j]. */
  function Product(A: Matrix, B: Matrix): (C: Matrix)
    requires IsMatrix(A, |A|, |A|) && IsMatrix(B, |A|, |A|)
    ensures IsMatrix(C, |A|, |A|)
  {
    seq(|A|, i requires 0 <= i < |A| =>
      seq(|A|, j requires 0 <= j < |A| => Sum(Terms(A, B, i, j))))
  }

  /** Two matrices of the same shape with the same entries are equal. */
  lemma SameEntries(A: Matrix, B: Matrix, rows: nat, cols: nat)
    requires IsMatrix(A, rows, cols) && IsMatrix(B, rows, cols)
    requires forall r, c :: 0 <= r < rows && 0 <= c < cols ==> A[r][c] == B[r][c]
    ensures A == B
  {
    forall r | 0 <= r < rows
      ensures A[r] == B[r]
    {
    }
  }

  /** `v` read cyclically from offset `c`: entry k is `v[(c + k) % |v|]`. */
  function Cyclic(v: seq<int>, c: nat): (w: seq<int>)
    requires |v| > 0
    ensures |w| == |v|
  {
    seq(|v|, k requires 0 <= k < |v| => v[(c + k) % |v|])
  }

  lemma {:induction false} MulAtLeast(a: int, n: int)
    requires a >= 1 && n > 0
    ensures a * n >= n
  {
    if a > 1 {
      MulAtLeast(a - 1, n);
      assert a * n == (a - 1) * n + n;
    }
  }

  /** Euclidean division is unique: a quotient and remainder in range are x / n and x % n. */
  lemma DivModUnique(x: int, n: int, q: int, r: int)
    requires n > 0 && 0 <= r < n && x == q * n + r
    ensures x / n == q && x % n == r
  {
    var q', r' := x / n, x % n;
    assert x == q' * n + r';
    assert (q - q') * n == r' - r;
    if q > q' {
      MulAtLeast(q - q', n);
    } else if q < q' {
      MulAtLeast(q' - q, n);
    }
  }

  /** Offsetting an index by c, modulo n, lands either at `c % n + k` or wraps once. */
  lemma ModOffset(c: nat, k: nat, n: nat)
    requires n > 0 && k < n
    ensures (c + k) % n == if c % n + k < n then c % n + k else c % n + k - n
  {
    if c % n + k < n {
      DivModUnique(c + k, n, c / n, c % n + k);
    } else {
      DivModUnique(c + k, n, c / n + 1, c % n + k - n);
    }
  }

  /** Reading v cyclically from c is the suffix from `c % |v|` followed by the prefix before it. */
  lemma CyclicSplit(v: seq<int>, c: nat)
    requires |v| > 0
    ensures Cyclic(v, c) == v[c % |v|..] + v[..c % |v|]
  {
    var n, d := |v|, c % |v|;
    var w := v[d..] + v[..d];
    forall k | 0 <= k < n
      ensures Cyclic(v, c)[k] == w[k]
    {
      ModOffset(c, k, n);
    }
  }

  /**
   * The sum of v[(c + k) % n] over k = 0 .. n-1 equals the sum of v[m] over m = 0 .. n-1:
   * as k runs over 0 .. n-1, (c + k) % n takes every index exactly once.
   */
  lemma CyclicSum(v: seq<int>, c: nat)
    requires |v| > 0
    ensures Sum(Cyclic(v, c)) == Sum(v)
  {
    CyclicSplit(v, c);
    SumRotated(v, c % |v|);
  }

  /** Moving the first d entries of v to the back keeps its sum. */
  lemma SumRotated(v: seq<int>, d: nat)
    requires d <= |v|
    ensures Sum(v[d..] + v[..d]) == Sum(v)
  {
    var front, back := v[..d], v[d..];
    assert front + back == v;
    SumConcat(front, back);
    SumConcat(back, front);
  }
}
