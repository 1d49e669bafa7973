# Rolling matrix multiplication: a Dafny model

This project models the sequential matrix core of `Project4/Source.cpp`, a
distributed matrix multiplication. A server sends two flat buffers to the
leader of each of two worker groups. The leader rebuilds two matrices, multiplies
them with a skew-and-shift ("Cannon") loop and sends back the flattened product.
The modelled pieces are:

- `Roll<LEFT>` / `Roll<UP>` (module `Rotation`). This is the rotation primitive. It turns one
  row left or one column up by `roll_for` single-element steps. Each step saves
  the first element, moves the rest one place forward and writes the saved
  element into the last slot. The C++ takes the matrix **by value** and
  returns nothing. `Rotation.RollCopy` copies the matrix into a local `array2`,
  runs the source's two nested loops on that copy and returns what the copy
  holds at the end. `Rotation.Roll` is the function as its callers see it: it
  runs `RollCopy` and drops the copy, so the caller's matrix cannot change.
  The repeated single step is defined once on a line (`RotateLeft`), and
  `Rolled` writes the turned row or column back into the matrix.
- `Cannon` (module `CannonEngine`). It allocates a zeroed result and makes the
  pre-skew `Roll` calls. Then, for every `k`, `i`, `j`, it adds
  `first[i][m] * second[m][j]` with `m = (i + j + k) % n`. After each addition it
  calls `Roll` on row `i` of `first` and on column `j` of `second`. Every one of
  these calls works on a copy, so the operands never move. For fixed `(i, j)`,
  `m` runs through a cyclic permutation of `0 .. n-1`. The method is proved to
  return the ordinary matrix product (`MatrixSpec.Product`). The key fact is
  `MatrixSpec.CyclicSum`: summing `v[(c + k) % n]` over `k` gives the sum of `v`.
- `fillMatrix` (module `FlatBuffer`). It appends `B[i + j]` to row `i`, which builds a
  Hankel matrix from the first `2*SIZE - 1` entries of the buffer.
- The row-major flattening loop at the end of `multiplyMatrix` (`FlatBuffer.Flatten`).
- The computing part of `multiplyMatrix` (`Leader.MultiplyMatrix`). It fills, multiplies
  and flattens. The two receives are left out, and the buffers arrive as
  parameters instead.

Matrices are `seq<seq<int>>`, matching `std::vector<std::vector<int>>` with copy
semantics. `SIZE` is the constant 6. C++ `int` is modelled as an unbounded `int`.

Although `Cannon` calls `Roll` after every addition, no call changes `first` or
`second`, because `Roll` receives its matrix by value (Project4/Source.cpp:25).
That is why `Cannon` computes the exact product.

## Model

| member | source | states |
|---|---|---|
| `Rotation.TurnOnce` | Project4/Source.cpp:39-53 | one pass of the outer loop saves the line's first element, shifts the rest forward and stores the saved one last, so the copy becomes `Step` of what it was |
| `Rotation.StepAt` | Project4/Source.cpp:39-53 | after one pass, each entry of the turned line holds its successor along the line, the last slot holds the old first element, and every other entry is unchanged |
| `Rotation.Roll` | Project4/Source.cpp:24-55 | the matrix is a by-value parameter and the result is void, so a call changes nothing the caller can see; its requires hold at every call in `Cannon` (Project4/Source.cpp:62, 64, 75, 76) |
| `Rotation.RollCopy` | Project4/Source.cpp:24-55 | running the loops on a private copy of the by-value matrix leaves that copy equal to `Rolled(matrix, dir, coord, roll_for)`, which is the matrix itself when roll_for <= 0; the caller's matrix is a value and is unchanged |
| `Rotation.RotateLeft` | Project4/Source.cpp:38-54 | any number of single steps keeps the line's length |
| `Rotation.RotateLeftAt` | Project4/Source.cpp:38-54 | after k single steps, position p of the line holds the old element at (p + k) % length |
| `Rotation.RotateLeftCompose` | Project4/Source.cpp:38-54 | on one line, a steps followed by b steps are a + b steps |
| `Rotation.RotateLeftFullCycle` | Project4/Source.cpp:38-54 | as many single steps as the line is long give the line back |
| `Rotation.RotateLeftModulo` | Project4/Source.cpp:38-54 | k single steps on a line, including k at or above its length, have the effect of k % length steps |
| `Rotation.RotateLeftInverse` | Project4/Source.cpp:38-54 | k steps followed by length - k % length steps restore the line |
| `Rotation.Rolled` | Project4/Source.cpp:38-54 | rolling keeps the matrix's row count and row width |
| `Rotation.RolledStep` | Project4/Source.cpp:38-54 | one more pass of the outer loop on the copy after k passes gives the copy after k + 1 passes, so `Rolled` is the iteration of the single step |
| `Rotation.RolledLeftAt` | Project4/Source.cpp:27-54 | for LEFT, row `coord` entry c becomes old entry (c + k) % width and every other row is unchanged |
| `Rotation.RolledUpAt` | Project4/Source.cpp:32-54 | for UP, column `coord` entry r becomes old entry (r + k) % height and every other column is unchanged |
| `Rotation.RolledCompose` | Project4/Source.cpp:38-54 | a steps followed by b steps are a + b steps |
| `Rotation.RolledFullCycle` | Project4/Source.cpp:38-54 | rolling by the line's length gives the original matrix back |
| `Rotation.RolledModulo` | Project4/Source.cpp:38-54 | rolling by k, including k at or above the length, has the effect of rolling by k % length |
| `Rotation.RolledInverse` | Project4/Source.cpp:38-54 | rolling by k and then by length - k % length restores the matrix, so every roll can be undone |
| `MatrixSpec.CyclicSum` | Project4/Source.cpp:67-74 | summing v[(c + k) % n] over k = 0 .. n-1 gives the sum of v, because (c + k) % n hits every index exactly once |
| `MatrixSpec.CyclicSplit` | Project4/Source.cpp:72 | reading v cyclically from c is the suffix from c % n followed by the prefix before it |
| `CannonEngine.PartialStep` | Project4/Source.cpp:72-74 | pass k adds exactly the term first[i][m] * second[m][j] with m = (i + j + k) % n to entry (i, j) |
| `CannonEngine.PartialComplete` | Project4/Source.cpp:67-78 | after all n passes, entry (i, j) is the sum over m of first[i][m] * second[m][j] |
| `CannonEngine.Cannon` | Project4/Source.cpp:57-80 | for n-by-n operands the result has first.size() rows of second.size() entries and equals the ordinary matrix product, despite all the `Roll` calls |
| `FlatBuffer.RowMajorPrefix` | Project4/Source.cpp:200-204 | k rows of SIZE entries flatten to k * SIZE entries |
| `FlatBuffer.RowMajorAt` | Project4/Source.cpp:200-204 | entry i * SIZE + j of the flattened buffer is result[i][j] |
| `FlatBuffer.Flatten` | Project4/Source.cpp:200-204 | the loop appends SIZE * SIZE entries to resultArray, with result[i][j] at offset i * SIZE + j (row-major order) |
| `FlatBuffer.FillMatrix` | Project4/Source.cpp:207-214 | row i < SIZE gets B[i .. i + SIZE - 1] appended and later rows are untouched; from SIZE empty rows the result is the Hankel matrix with entry (i, j) = B[i + j]; B is only read |
| `FlatBuffer.HankelReadsPrefix` | Project4/Source.cpp:207-214 | the filled matrix depends only on B[0 .. 2*SIZE - 2] |
| `FlatBuffer.HankelOfRowMajor` | Project4/Source.cpp:161-163 | when the server fills a matrix from a row-major result R, it shows R[(i + j) / SIZE][(i + j) % SIZE] at (i, j) |
| `FlatBuffer.FillAfterFlattenDiffers` | Project4/Source.cpp:161-163 | flattening and then filling changes every SIZE-by-SIZE matrix whose entries (0, 1) and (1, 0) differ |
| `FlatBuffer.FillRowMajor` | Project4/Source.cpp:207-214 | the corrected fill appends B[i * SIZE .. i * SIZE + SIZE - 1] to row i, and from empty rows it builds `Unflatten(B)` |
| `FlatBuffer.UnflattenRowMajor` | Project4/Source.cpp:200-214 | row-major slicing undoes row-major flattening of a SIZE-by-SIZE matrix |
| `FlatBuffer.RowMajorUnflatten` | Project4/Source.cpp:200-214 | row-major flattening undoes row-major slicing of a SIZE * SIZE buffer |
| `Leader.MultiplyMatrix` | Project4/Source.cpp:179-205 | the leader appends to resultArray the row-major product of the Hankel matrices that `fillMatrix` builds from the two buffers, SIZE * SIZE entries |

## Left out

- `main`'s process topology (Project4/Source.cpp:87-177) is not modelled. This covers the 9-process guard, the communicator split, the group and intercommunicator construction and the rank lists. Apart from the process-count guard and the literal rank lists, all of it is calls into `MPILib.h`, and `MPILib.h` is not part of this model.
- Message passing is left out: `receiveArray` / `sendArray` in `multiplyMatrix` and `main`. `Leader.MultiplyMatrix` takes the two received buffers as parameters and returns the buffer that would be sent.
- `#pragma omp for` and `#pragma omp atomic` (Project4/Source.cpp:66,73) have no enclosing parallel region. The loop is modelled as sequential.
- The `rand() % 100` matrix generation on the server is a nondeterministic external source and is left out.
- `printMatrix` and all console output are left out.
- CannonEngine.Cannon: does not model 32-bit `int` wrap-around. Entries are unbounded integers. With the server's inputs in [0, 100) and SIZE = 6, every sum is at most 6 * 99 * 99 = 58806, so no wrap-around occurs.
- CannonEngine.Cannon: only n-by-n operands of one size are modelled. The source does no dimension check. Non-square shapes that happen to stay in bounds are not covered.
- Rotation.Roll, Rotation.RollCopy: require a rectangular matrix (every row as wide as row 0). The source reads the row width from row 0 only. Rows of other widths are outside the model.

## Findings

| source | as written | input that shows it | evidently intended | confidence | as-written member | corrected member |
|---|---|---|---|---|---|---|
| Project4/Source.cpp:211 | `fillMatrix` appends B[i + j] to row i. This rebuilds a Hankel matrix from the first 2*SIZE - 1 entries, so it is not the inverse of the row-major flattening loop (lines 200-204) that produced the buffer the server fills at lines 163 and 170 | any 6-by-6 product R with R[0][1] != R[1][0]: the server shows R[0][1] at position (1, 0) | append B[i * SIZE + j], slicing the buffer into SIZE rows of SIZE entries, so that filling undoes flattening | high; not executed | `FlatBuffer.FillAfterFlattenDiffers` | `FlatBuffer.UnflattenRowMajor` |

The leader applies the same `fillMatrix` to its inputs, so it multiplies the Hankel matrices of the two buffers (`Leader.MultiplyMatrix`). With the corrected fill (`FlatBuffer.FillRowMajor`), the server would receive the row-major product and rebuild it exactly (`FlatBuffer.UnflattenRowMajor`).
