/**
 * The rotation primitive `Roll<direction>(matrix, coord, roll_for)`: it turns
 * one row to the left, or one column upwards, by `roll_for` single-element
 * steps. Each step saves the first element of the line, moves every other
 * element one place towards the front and writes the saved element into the
 * last slot.
 *
 * The C++ takes `matrix` by value, so the rotation happens on a private copy
 * and the caller's matrix is never touched; here the parameter is a Dafny
 * value, the copy is a local `array2`, and the method hands back the copy's
 * final contents, which the C++ discards.
 */
module Rotation {
  import opened MatrixSpec

  /** `RollDirection`: LEFT turns a row, UP turns a column. */
  datatype Direction = Left | Up

  /** Rectangular: every row is as wide as the first one. */
  predicate Rectangular(M: Matrix)
  {
    IsMatrix(M, |M|, Width(M))
  }

  /** Number of elements on the line that `dir` turns: a row's width, or a column's height. */
  function LineLength(M: Matrix, dir: Direction): nat
  {
    if dir == Left then Width(M) else |M|
  }

  /** `coord` names a non-empty row (Left) or column (Up) of a non-empty rectangular matrix. */
  predicate ValidLine(M: Matrix, dir: Direction, coord: int)
  {
    Rectangular(M) && |M| > 0 && Width(M) > 0 &&
    0 <= coord < (if dir == Left then |M| else Width(M))
  }

  /** Column x of M, top to bottom. */
  function Column(M: Matrix, x: nat): (col: seq<int>)
    requires forall r :: 0 <= r < |M| ==> x < |M[r]|
    ensures |col| == |M|
  {
    seq(|M|, r requires 0 <= r < |M| => M[r][x])
  }

  /** M with column x replaced by col. */
  function SetColumn(M: Matrix, x: nat, col: seq<int>): (R: Matrix)
    requires forall r :: 0 <= r < |M| ==> x < |M[r]|
    requires |col| == |M|
    ensures |R| == |M| && forall r :: 0 <= r < |M| ==> |R[r]| == |M[r]|
  {
    seq(|M|, r requires 0 <= r < |M| => M[r][x := col[r]])
  }

  /** One single-element step on a line: the first element moves to the end. */
  function RotateOnce(s: seq<int>): seq<int>
    requires |s| > 0
  {
    s[1..] + [s[0]]
  }

  /** A line after k single-element steps; no step at all when k <= 0 (the loop `i < roll_for` does not run). */
  function RotateLeft(s: seq<int>, k: int): (t: seq<int>)
    requires k > 0 ==> |s| > 0
    ensures |t| == |s|
    decreases k
  {
    if k <= 0 then s else RotateOnce(RotateLeft(s, k - 1))
  }

  /** `(n - 1 + k) % n == (k - 1) % n`: the wrap-around slot. */
  lemma ModWrap(k: nat, n: nat)
    requires n > 0 && k > 0
    ensures (n - 1 + k) % n == (k - 1) % n
  {
    ModOffset(k - 1, n - 1, n);
    ModOffset(k - 1, 0, n);
    DivModUnique(n - 1 + k, n, (k - 1) / n + 1, (k - 1) % n);
  }

  /** After k steps, position j of the line holds the old element at (j + k) % n. */
  lemma {:induction false} RotateLeftAt(s: seq<int>, k: nat, j: nat)
    requires |s| > 0 && j < |s|
    ensures RotateLeft(s, k)[j] == s[(j + k) % |s|]
  {
    var n := |s|;
    if k == 0 {
      DivModUnique(j, n, 0, j);
    } else if j + 1 < n {
      RotateLeftAt(s, k - 1, j + 1);
      assert (j + 1 + (k - 1)) % n == (j + k) % n;
    } else {
      RotateLeftAt(s, k - 1, 0);
      ModWrap(k, n);
    }
  }

  /** a steps followed by b steps are a + b steps. */
  lemma {:induction false} RotateLeftCompose(s: seq<int>, a: nat, b: nat)
    requires |s| > 0
    ensures RotateLeft(RotateLeft(s, a), b) == RotateLeft(s, a + b)
  {
    if b > 0 {
      RotateLeftCompose(s, a, b - 1);
    }
  }

  /** As many steps as the line is long give the line back. */
  lemma RotateLeftFullCycle(s: seq<int>)
    requires |s| > 0
    ensures RotateLeft(s, |s|) == s
  {
    var n := |s|;
    var t := RotateLeft(s, n);
    forall j | 0 <= j < n
      ensures t[j] == s[j]
    {
      RotateLeftAt(s, n, j);
      ModPlusPeriod(j, n);
    }
    assert |t| == n;
  }

  lemma ModPlusPeriod(j: nat, n: nat)
    requires j < n
    ensures (j + n) % n == j
  {
    DivModUnique(j + n, n, 1, j);
  }

  lemma ModLessPeriod(k: nat, n: nat)
    requires 0 < n <= k
    ensures (k - n) % n == k % n
  {
    DivModUnique(k, n, (k - n) / n + 1, (k - n) % n);
  }

  lemma ModCompleteCycle(k: nat, n: nat)
    requires n > 0
    ensures (k + (n - k % n)) % n == 0
  {
    DivModUnique(k + (n - k % n), n, k / n + 1, 0);
  }

  /** k steps (k >= n allowed) have the effect of k % n steps. */
  lemma {:induction false} RotateLeftModulo(s: seq<int>, k: nat)
    requires |s| > 0
    ensures RotateLeft(s, k) == RotateLeft(s, k % |s|)
    decreases k
  {
    var n := |s|;
    if k < n {
      DivModUnique(k, n, 0, k);
    } else {
      RotateLeftModulo(s, k - n);
      ModLessPeriod(k, n);
      RotateLeftCompose(s, k - n, n);
      RotateLeftFullCycle(RotateLeft(s, k - n));
    }
  }

  /** Turning by k and then by n - k % n steps restores the line. */
  lemma RotateLeftInverse(s: seq<int>, k: nat)
    requires |s| > 0
    ensures RotateLeft(RotateLeft(s, k), |s| - k % |s|) == s
  {
    var n := |s|;
    RotateLeftCompose(s, k, n - k % n);
    RotateLeftModulo(s, k + (n - k % n));
    ModCompleteCycle(k, n);
  }

  /** The line `dir` turns: row `coord` (Left) or column `coord` (Up). */
  function Line(M: Matrix, dir: Direction, coord: int): (l: seq<int>)
    requires ValidLine(M, dir, coord)
    ensures |l| == LineLength(M, dir) && |l| > 0
  {
    if dir == Left then M[coord] else Column(M, coord)
  }

  /** M with the line `dir` turns replaced by l. */
  function SetLine(M: Matrix, dir: Direction, coord: int, l: seq<int>): (R: Matrix)
    requires ValidLine(M, dir, coord) && |l| == LineLength(M, dir)
    ensures IsMatrix(R, |M|, Width(M))
  {
    if dir == Left then M[coord := l] else SetColumn(M, coord, l)
  }

  /** Entry (r, c) after replacing the line: from l on the line, from M elsewhere. */
  lemma SetLineAt(M: Matrix, dir: Direction, coord: int, l: seq<int>, r: nat, c: nat)
    requires ValidLine(M, dir, coord) && |l| == LineLength(M, dir)
    requires r < |M| && c < Width(M)
    ensures SetLine(M, dir, coord, l)[r][c] ==
            match dir
            case Left => if r == coord then l[c] else M[r][c]
            case Up => if c == coord then l[r] else M[r][c]
  {
  }

  /** Reading back a line just written gives what was written; the line stays valid. */
  lemma LineOfSetLine(M: Matrix, dir: Direction, coord: int, l: seq<int>)
    requires ValidLine(M, dir, coord) && |l| == LineLength(M, dir)
    ensures ValidLine(SetLine(M, dir, coord, l), dir, coord)
    ensures Line(SetLine(M, dir, coord, l), dir, coord) == l
  {
  }

  /** Writing a line twice keeps only the second write. */
  lemma SetLineTwice(M: Matrix, dir: Direction, coord: int, l1: seq<int>, l2: seq<int>)
    requires ValidLine(M, dir, coord) && |l1| == LineLength(M, dir) && |l2| == |l1|
    ensures ValidLine(SetLine(M, dir, coord, l1), dir, coord)
    ensures SetLine(SetLine(M, dir, coord, l1), dir, coord, l2) == SetLine(M, dir, coord, l2)
  {
    var R := SetLine(SetLine(M, dir, coord, l1), dir, coord, l2);
    var T := SetLine(M, dir, coord, l2);
    forall r | 0 <= r < |M|
      ensures R[r] == T[r]
    {
    }
  }

  /** Writing a line back unchanged leaves the matrix as it was. */
  lemma SetLineSame(M: Matrix, dir: Direction, coord: int)
    requires ValidLine(M, dir, coord)
    ensures SetLine(M, dir, coord, Line(M, dir, coord)) == M
  {
    var R := SetLine(M, dir, coord, Line(M, dir, coord));
    forall r | 0 <= r < |M|
      ensures R[r] == M[r]
    {
    }
  }

  /** One pass of the outer loop of `Roll`: the chosen line turned by one step, the rest as it was. */
  function Step(M: Matrix, dir: Direction, coord: int): (R: Matrix)
    requires ValidLine(M, dir, coord)
    ensures IsMatrix(R, |M|, Width(M))
  {
    SetLine(M, dir, coord, RotateOnce(Line(M, dir, coord)))
  }

  /** Entry (r, c) after one step: the next element along the line, the first one in the last slot. */
  lemma StepAt(M: Matrix, dir: Direction, coord: int, r: nat, c: nat)
    requires ValidLine(M, dir, coord) && r < |M| && c < Width(M)
    ensures Step(M, dir, coord)[r][c] ==
            match dir
            case Left => if r != coord then M[r][c] else if c + 1 < Width(M) then M[r][c + 1] else M[r][0]
            case Up => if c != coord then M[r][c] else if r + 1 < |M| then M[r + 1][c] else M[0][c]
  {
    SetLineAt(M, dir, coord, RotateOnce(Line(M, dir, coord)), r, c);
  }

  /** The copy after `k` single steps on line `coord`; the matrix itself when k <= 0. */
  function Rolled(M: Matrix, dir: Direction, coord: int, k: int): (R: Matrix)
    requires Rectangular(M)
    requires k > 0 ==> ValidLine(M, dir, coord)
    ensures IsMatrix(R, |M|, Width(M))
  {
    if k <= 0 then M else SetLine(M, dir, coord, RotateLeft(Line(M, dir, coord), k))
  }

  /** Rolling by k >= 0 writes the line turned by k steps back into the matrix, k == 0 included. */
  lemma RolledSetsLine(M: Matrix, dir: Direction, coord: int, k: nat)
    requires ValidLine(M, dir, coord)
    ensures Rolled(M, dir, coord, k) == SetLine(M, dir, coord, RotateLeft(Line(M, dir, coord), k))
  {
    if k == 0 {
      SetLineSame(M, dir, coord);
    }
  }

  /** One more pass of the loop is one more step: `Rolled` is the iteration of `Step`. */
  lemma RolledStep(M: Matrix, dir: Direction, coord: int, k: nat)
    requires ValidLine(M, dir, coord)
    ensures ValidLine(Rolled(M, dir, coord, k), dir, coord)
    ensures Step(Rolled(M, dir, coord, k), dir, coord) == Rolled(M, dir, coord, k + 1)
  {
    var l := Line(M, dir, coord);
    RolledSetsLine(M, dir, coord, k);
    LineOfSetLine(M, dir, coord, RotateLeft(l, k));
    SetLineTwice(M, dir, coord, RotateLeft(l, k), RotateLeft(l, k + 1));
  }

  /**
   * Roll<LEFT>: with n columns and 0 <= coord < rows, entry j of row coord
   * afterwards is entry (j + k) % n before, and every other row is unchanged.
   */
  lemma RolledLeftAt(M: Matrix, coord: int, k: nat, r: nat, c: nat)
    requires ValidLine(M, Left, coord) && r < |M| && c < Width(M)
    ensures Rolled(M, Left, coord, k)[r][c] ==
            if r == coord then M[coord][(c + k) % Width(M)] else M[r][c]
  {
    if k == 0 {
      DivModUnique(c, Width(M), 0, c);
    } else {
      var l := Line(M, Left, coord);
      SetLineAt(M, Left, coord, RotateLeft(l, k), r, c);
      RotateLeftAt(l, k, c);
    }
  }

  /**
   * Roll<UP>: with n rows and 0 <= coord < columns, entry j of column coord
   * afterwards is entry (j + k) % n before, and every other column is unchanged.
   */
  lemma RolledUpAt(M: Matrix, coord: int, k: nat, r: nat, c: nat)
    requires ValidLine(M, Up, coord) && r < |M| && c < Width(M)
    ensures Rolled(M, Up, coord, k)[r][c] ==
            if c == coord then M[(r + k) % |M|][coord] else M[r][c]
  {
    if k == 0 {
      DivModUnique(r, |M|, 0, r);
    } else {
      var l := Line(M, Up, coord);
      SetLineAt(M, Up, coord, RotateLeft(l, k), r, c);
      RotateLeftAt(l, k, r);
    }
  }

  /** a steps followed by b steps are a + b steps. */
  lemma RolledCompose(M: Matrix, dir: Direction, coord: int, a: nat, b: nat)
    requires ValidLine(M, dir, coord)
    ensures ValidLine(Rolled(M, dir, coord, a), dir, coord)
    ensures Rolled(Rolled(M, dir, coord, a), dir, coord, b) == Rolled(M, dir, coord, a + b)
  {
    var l := Line(M, dir, coord);
    var la := RotateLeft(l, a);
    RolledSetsLine(M, dir, coord, a);
    LineOfSetLine(M, dir, coord, la);
    RolledSetsLine(Rolled(M, dir, coord, a), dir, coord, b);
    SetLineTwice(M, dir, coord, la, RotateLeft(la, b));
    RotateLeftCompose(l, a, b);
    RolledSetsLine(M, dir, coord, a + b);
  }

  /** A full cycle, as many steps as the line is long, gives the matrix back. */
  lemma RolledFullCycle(M: Matrix, dir: Direction, coord: int)
    requires ValidLine(M, dir, coord)
    ensures Rolled(M, dir, coord, LineLength(M, dir)) == M
  {
    RolledSetsLine(M, dir, coord, LineLength(M, dir));
    RotateLeftFullCycle(Line(M, dir, coord));
    SetLineSame(M, dir, coord);
  }

  /** Repeating single steps k times (k >= n allowed) has the effect of k % n steps. */
  lemma RolledModulo(M: Matrix, dir: Direction, coord: int, k: nat)
    requires ValidLine(M, dir, coord)
    ensures Rolled(M, dir, coord, k) == Rolled(M, dir, coord, k % LineLength(M, dir))
  {
    var l := Line(M, dir, coord);
    RotateLeftModulo(l, k);
    RolledSetsLine(M, dir, coord, k);
    RolledSetsLine(M, dir, coord, k % |l|);
  }

  /** Turning by k and then by n - k % n steps restores the matrix: each rotation is undone by another. */
  lemma RolledInverse(M: Matrix, dir: Direction, coord: int, k: nat)
    requires ValidLine(M, dir, coord)
    ensures ValidLine(Rolled(M, dir, coord, k), dir, coord)
    ensures Rolled(Rolled(M, dir, coord, k), dir, coord, LineLength(M, dir) - k % LineLength(M, dir)) == M
  {
    var n := LineLength(M, dir);
    RolledCompose(M, dir, coord, k, n - k % n);
    RolledModulo(M, dir, coord, k + (n - k % n));
    ModCompleteCycle(k, n);
  }

  /**
   * One pass of the outer loop of `Roll` on the copy `local`: save the first
   * element of the line, move the others one place towards the front, and
   * write the saved element into slot `last`.
   */
  method TurnOnce(local: array2<int>, dir: Direction, coord: int, x: int, y: int, last: int, ghost cur: Matrix)
    requires ValidLine(cur, dir, coord)
    requires local.Length0 == |cur| && local.Length1 == Width(cur)
    requires dir == Left ==> y == coord && x == 0 && last == Width(cur) - 1
    requires dir == Up ==> x == coord && y == 0 && last == |cur| - 1
    requires forall r, c :: 0 <= r < |cur| && 0 <= c < Width(cur) ==> local[r, c] == cur[r][c]
    modifies local
    ensures forall r, c :: 0 <= r < |cur| && 0 <= c < Width(cur) ==> local[r, c] == Step(cur, dir, coord)[r][c]
  {
    var rows, cols := |cur|, Width(cur);
    var first := local[y, x];
    assert first == cur[y][x];
    var j := 0;
    while j < last
      invariant 0 <= j <= last
      invariant dir == Left ==> forall r, c {:trigger local[r, c]} :: 0 <= r < rows && 0 <= c < cols ==>
                  local[r, c] == if r == y && c < j then cur[r][c + 1] else cur[r][c]
      invariant dir == Up ==> forall r, c {:trigger local[r, c]} :: 0 <= r < rows && 0 <= c < cols ==>
                  local[r, c] == if c == x && r < j then cur[r + 1][c] else cur[r][c]
    {
      if dir == Left {
        assert local[y, j + 1] == cur[y][j + 1];
        local[y, j] := local[y, j + 1];
      } else {
        assert local[j + 1, x] == cur[j + 1][x];
        local[j, x] := local[j + 1, x];
      }
      j := j + 1;
    }
    if dir == Left {
      local[y, last] := first;
      forall r, c | 0 <= r < rows && 0 <= c < cols
        ensures local[r, c] == Step(cur, dir, coord)[r][c]
      {
        StepAt(cur, dir, coord, r, c);
      }
    } else {
      local[last, x] := first;
      forall r, c | 0 <= r < rows && 0 <= c < cols
        ensures local[r, c] == Step(cur, dir, coord)[r][c]
      {
        StepAt(cur, dir, coord, r, c);
      }
    }
  }

  /**
   * The body of `Roll<direction>(matrix, coord, roll_for)`, run on the private
   * copy the C++ makes of its by-value parameter; `rolled` is what that copy
   * holds when the function returns.
   */
  method RollCopy(matrix: Matrix, dir: Direction, coord: int, rollFor: int) returns (rolled: Matrix)
    requires Rectangular(matrix)
    requires dir == Left ==> |matrix| > 0
    requires rollFor > 0 ==> ValidLine(matrix, dir, coord)
    ensures rolled == Rolled(matrix, dir, coord, rollFor)
    ensures rollFor <= 0 ==> rolled == matrix
  {
    var rows, cols := |matrix|, Width(matrix);
    var local := new int[rows, cols]((r, c) requires 0 <= r < rows && 0 <= c < cols => matrix[r][c]);
    var x, y, last;
    if dir == Left {
      y, x, last := coord, 0, cols - 1;
    } else {
      x, y, last := coord, 0, rows - 1;
    }
    var i := 0;
    ghost var cur := matrix;
    while i < rollFor
      invariant i == 0 || 0 < i <= rollFor
      invariant cur == Rolled(matrix, dir, coord, i)
      invariant forall r, c {:trigger local[r, c]} :: 0 <= r < rows && 0 <= c < cols ==> local[r, c] == cur[r][c]
      decreases rollFor - i
    {
      TurnOnce(local, dir, coord, x, y, last, cur);
      RolledStep(matrix, dir, coord, i);
      cur := Step(cur, dir, coord);
      i := i + 1;
    }
    rolled := Contents(local);
    SameEntries(rolled, cur, rows, cols);
  }

  /**
   * `Roll<direction>(matrix, coord, roll_for)` as its callers see it: it
   * returns nothing, and `matrix` is a copy, so the caller's matrix stays as
   * it was whatever the rotation does.
   */
  method Roll(matrix: Matrix, dir: Direction, coord: int, rollFor: int)
    requires Rectangular(matrix)
    requires dir == Left ==> |matrix| > 0
    requires rollFor > 0 ==> ValidLine(matrix, dir, coord)
  {
    var _ := RollCopy(matrix, dir, coord, rollFor);
  }

  /** The entries of a two-dimensional array, row by row. */
  function Contents(a: array2<int>): (M: Matrix)
    reads a
    ensures IsMatrix(M, a.Length0, a.Length1)
    ensures forall r, c :: 0 <= r < a.Length0 && 0 <= c < a.Length1 ==> M[r][c] == a[r, c]
  {
    seq(a.Length0, r requires 0 <= r < a.Length0 reads a =>
      seq(a.Length1, c requires 0 <= c < a.Length1 reads a => a[r, c]))
  }
}
