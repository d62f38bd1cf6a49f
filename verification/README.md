# Smith normal form by Iliopoulos elimination, with its LinBox helpers

This project is a Dafny model of the Smith-form core of LinBox. It covers:

- **`SmithFormIliopoulos`**, which computes the Smith form over a principal ideal ring:
  - `eliminationRow` and `eliminationCol` clear the first row and the first column with unimodular column and row operations;
  - `check` tests whether the pivot divides its row;
  - `diagonalizationIn` repeats the two eliminations until `check` holds, then recurses on the trailing submatrix;
  - `smithFormIn` turns the diagonal into a divisibility chain of normalised invariant factors;
  - `solve` reads the factors off a copy.
- **The driver `examples/smith.C`**:
  - the `algo` dispatch;
  - the `ilio` branch, which reads the diagonal and run-length encodes it with `distinct`;
  - the `local` branch's expand-and-pad of the `(count, value)` pairs;
  - the `pwrlist` cache of powers of q;
  - the `qread` token reader for Krattenthaler matrix files.
- **`VectorWrapper` in `vector-traits.h`**:
  - the category each container type is dispatched on;
  - `ref`, `constRef` and `ensureDim` for dense, sparse-sequence and sparse-associative vectors.
- **`BlockedMatrix`**:
  - a matrix stored as a grid of equally sized blocks: dimensions, block and entry access, and copying to and from a dense matrix;
  - copy construction and assignment;
  - the block-level interface of `AlignedBlockedSubmatrix`.

The ring is the integers (`Givaro::ZRing<Integer>`) with its capability set:

- `isUnit` holds for ±1;
- `inv(u) = u`;
- `isDivisor` is divisibility, where 0 divides only 0;
- `div` is the exact quotient;
- `xgcd` is modelled by its contract: the result g is non-negative, g = s·a + t·b, and g divides both a and b. Extended Euclid is one instance of that contract; `gcd` is its first component;
- `normalIn` is the absolute value.

Matrices are sequences of rows. An in-place operation becomes a function from the old matrix to the new one. A submatrix view becomes an extract (`Sub`) and a write-back (`Embed`).

The main guarantees proved:

- **Unimodular equivalence.** B is *equivalent* to A when a finite sequence of invertible elementary operations leads from A to B: column operations (B = A V) and row operations (B = U A), so that B = U A V with U and V unimodular.
  - Every column operation of the elimination has an inverse, and every operation keeps the common divisors of each row (columns, for `eliminationCol`).
  - `eliminationRow` is a column equivalence, `eliminationCol` a row equivalence, and a pass, the convergence loop and `diagonalizationIn` are equivalences.
  - A is equivalent to the diagonal matrix of the factors `solve` returns. Uniqueness of those factors is not proved.
- **Pivot.** After `eliminationRow` the pivot generates the ideal of the original first row. The same holds for `eliminationCol` and the first column.
- **Diagonalization.** `diagonalizationIn` keeps the common divisors of all entries. It leaves the matrix *reduced*: zero below the diagonal, and every diagonal entry divides the rest of its row.
- **Smith form.** `smithFormIn` leaves a non-negative divisibility chain on the diagonal. The chain has the same common divisors as the input. The absolute value of its product is that of the diagonal before normalisation. The first invariant factor is the gcd of all entries. Normalisation is idempotent.
- **Encodings and caches.**
  - `distinct` produces the unique well-formed run-length encoding of its input.
  - `qread` reads back every rendered token.
  - `pwrlist` only ever holds powers of q.
- **Vectors.** `ref`, `constRef` and `ensureDim` never change the mathematical vector. Writing through `ref` changes exactly one coordinate.
- **Blocked matrices.**
  - `setEntry` changes the dense view in exactly one place.
  - `copyFromMatrix` and `copyToMatrix` are inverse.
  - Copies equal their source.

The header calls the algorithm one "to diagonalize" (linbox/algorithms/smith-form-iliopoulos.h:35) and documents `diagonalizationIn` as diagonalizing A (line 402). The code does less, and the model follows the code:

- `diagonalizationIn` does not produce a diagonal matrix. `check` only asks that the pivot divide the other entries of row 0, so row 0 may keep non-zero multiples of the pivot. The model therefore proves "reduced" (upper triangular, each row divisible by its diagonal entry), not "diagonal".
- `smithFormIn` only rewrites diagonal entries. The off-diagonal entries left by `diagonalizationIn` stay as they are. The returned matrix is therefore not in general equivalent to A; its diagonal is, in the sense that A is equivalent to the diagonal matrix built from it.
- The driver's factor list is the diagonal in index order, run-length encoded. It is not sorted.

Every recursion whose termination the code does not make evident takes a `fuel` argument:

- the `do/while` of `diagonalizationIn`;
- the recursion on the submatrix.

Running out of fuel yields `None`.

## Model

| member | source | states |
|---|---|---|
| Ints.Inv | linbox/algorithms/smith-form-iliopoulos.h:87-95 | the inverse taken of a unit pivot is itself a unit and multiplies with it to 1 |
| Ints.Div | linbox/algorithms/smith-form-iliopoulos.h:113-114 | when the divisor divides the dividend, quotient times divisor gives the dividend back |
| Ints.NormalIn | linbox/algorithms/smith-form-iliopoulos.h:485 | the canonical associate is non-negative and is x or -x |
| Ints.XGcd | linbox/algorithms/smith-form-iliopoulos.h:112 | g is non-negative, equals s*a + t*b, and divides both a and b |
| Ints.Gcd | linbox/algorithms/smith-form-iliopoulos.h:476 | g is a non-negative common divisor of both arguments that every common divisor divides |
| Ints.DivisorNormal | linbox/algorithms/smith-form-iliopoulos.h:485 | replacing either side by its normalIn associate does not change divisibility |
| Matrices.Transpose | linbox/algorithms/smith-form-iliopoulos.h:222-368 | row j of the transpose is column j of the matrix (the column pass mirrors the row pass through it) |
| Matrices.TransposeTwice | linbox/algorithms/smith-form-iliopoulos.h:222-368 | transposing twice gives back the matrix |
| Matrices.TransposeEntryDivisors | linbox/algorithms/smith-form-iliopoulos.h:222-368 | the common divisors of all entries are the same read by rows or by columns |
| Matrices.DotDivisor | linbox/algorithms/smith-form-iliopoulos.h:182-184 | a common divisor of a vector divides its dot product with any vector |
| Matrices.ApplyRowKeepsDivisor | linbox/algorithms/smith-form-iliopoulos.h:85-210 | a common divisor of a row still divides every entry after any column operation |
| Matrices.InverseRoundTrip | linbox/algorithms/smith-form-iliopoulos.h:85-210 | each column operation the elimination applies (unit scaling, axpy, the 2x2 combination of determinant -1, the dot into column 0) has an inverse operation that restores the row |
| Matrices.ShiftRow | linbox/algorithms/smith-form-iliopoulos.h:422-426 | an invertible operation on a row of the view sub(A, 1, 1, ...) is an invertible operation on the full row that keeps entry 0 and acts on the rest as on the view |
| Equivalence.ColumnOperation | linbox/algorithms/smith-form-iliopoulos.h:85-210 | one invertible column operation leads to an equivalent matrix (B = A V) |
| Equivalence.RowOperation | linbox/algorithms/smith-form-iliopoulos.h:222-368 | one invertible row operation leads to an equivalent matrix (B = U A) |
| Equivalence.UndoStep | linbox/algorithms/smith-form-iliopoulos.h:85-210 | the inverse of a step is a step of the same kind that restores the matrix |
| Equivalence.EquivalentSymmetric | linbox/algorithms/smith-form-iliopoulos.h:85-368 | if B is reached from A by invertible steps then A is reached from B by steps of the same kinds |
| Equivalence.EquivalentTrans | linbox/algorithms/smith-form-iliopoulos.h:412-418 | operations applied one after another compose into one equivalence |
| Equivalence.EquivalentTranspose | linbox/algorithms/smith-form-iliopoulos.h:222-368 | column operations on A are row operations on its transpose, so the column pass done through the transpose is a row equivalence |
| Matrices.ApplyRowSameDivisors | linbox/algorithms/smith-form-iliopoulos.h:85-210 | an invertible column operation keeps exactly the set of common divisors of a row |
| Matrices.ApplyColsInvertible | linbox/algorithms/smith-form-iliopoulos.h:85-210 | applied to a whole matrix, an invertible column operation keeps its shape and every row's common divisors |
| Matrices.RowDivisorsToEntries | linbox/algorithms/smith-form-iliopoulos.h:56-214 | keeping each row's common divisors keeps the common divisors of all entries |
| Elimination.TwoByTwo | linbox/algorithms/smith-form-iliopoulos.h:110-116 | for a non-zero pivot a: g = s*a + t*b is non-zero and divides a and b, y1*a + y2*b = 0, and the 2x2 combination has determinant -1 |
| Elimination.PivotToZero | linbox/algorithms/smith-form-iliopoulos.h:103-143 | a non-zero pivot is moved out: entry (0,0) becomes 0 and (0,1) non-zero, every row keeps its common divisors |
| Elimination.Accumulate | linbox/algorithms/smith-form-iliopoulos.h:146-176 | the accumulated g is the dot product of the coefficient vector (first coefficient 1) with the row, and divides every entry 1..j-1 of the row |
| Elimination.ScaleRange | linbox/algorithms/smith-form-iliopoulos.h:168-172 | exactly the entries in [lo, hi) of the weight vector are multiplied by s; the entries before and after are unchanged |
| Elimination.FinalPass | linbox/algorithms/smith-form-iliopoulos.h:193-210 | every row entry divisible by the pivot becomes 0, column 0 and the earlier entries are untouched, rows keep their common divisors |
| Elimination.UnitPivotRow | linbox/algorithms/smith-form-iliopoulos.h:85-97 | with a unit pivot the first row becomes (1, 0, ..., 0), column 0 is multiplied by the inverse, rows keep their common divisors |
| Elimination.MovePivot | linbox/algorithms/smith-form-iliopoulos.h:99-143 | afterwards the pivot is 0; a non-zero pivot leaves a non-zero entry (0,1); a zero pivot changes nothing |
| Elimination.NonUnitPivotRow | linbox/algorithms/smith-form-iliopoulos.h:99-210 | with a non-unit pivot the rest of the first row becomes 0, rows keep their divisors, and an all-zero first row is returned unchanged (the early return at 179) |
| Elimination.EliminationRow | linbox/algorithms/smith-form-iliopoulos.h:56-214 | fewer than two columns: unchanged; otherwise row 0 becomes (*, 0, ..., 0); every row keeps its common divisors; a zero first row is left alone; a unit pivot becomes 1; the result is reached from A by invertible column operations |
| Elimination.EliminationCol | linbox/algorithms/smith-form-iliopoulos.h:222-368 | fewer than two rows: unchanged; otherwise column 0 becomes (*, 0, ..., 0)^T; every column keeps its common divisors; a unit pivot becomes 1; the result is reached from A by invertible row operations |
| Elimination.Check | linbox/algorithms/smith-form-iliopoulos.h:372-400 | true exactly when the pivot is zero or divides every other entry of the first row |
| Elimination.CheckFrom | linbox/algorithms/smith-form-iliopoulos.h:392-397 | the loop returns true exactly when the pivot divides every entry from position k on |
| Elimination.PivotGeneratesRow | linbox/algorithms/smith-form-iliopoulos.h:56-214 | after eliminationRow, d divides the new pivot exactly when d divides every entry of the original first row |
| Elimination.PivotGeneratesCol | linbox/algorithms/smith-form-iliopoulos.h:222-368 | after eliminationCol, d divides the new pivot exactly when d divides every entry of the original first column |
| Diagonalization.Pass | linbox/algorithms/smith-form-iliopoulos.h:412-416 | one row pass and one column pass: column 0 is zero below the pivot, the common divisors of all entries are kept, a zero pivot comes with a zero first row; the result is reached from the input by invertible row and column operations |
| Diagonalization.ZeroPivotColumn | linbox/algorithms/smith-form-iliopoulos.h:222-368 | eliminationCol ends with a zero pivot only when the first column was entirely zero |
| Diagonalization.UnitPivotPass | linbox/algorithms/smith-form-iliopoulos.h:412-416 | a pass over a matrix with a unit pivot leaves a unit pivot and zeros in the rest of row 0 |
| Diagonalization.Converge | linbox/algorithms/smith-form-iliopoulos.h:412-418 | when the loop exits, check holds, column 0 is zero below the pivot, the pivot divides its row, and the common divisors of all entries are those of the input; the result is reached from the input by invertible row and column operations |
| Diagonalization.UnitPivotConverges | linbox/algorithms/smith-form-iliopoulos.h:412-418 | with a unit pivot the loop exits after its first pass |
| Diagonalization.Sub | linbox/algorithms/smith-form-iliopoulos.h:422-424 | the view sub(A, 1, 1, rowdim-1, coldim-1) has entry (i, j) equal to A[i+1][j+1] |
| Diagonalization.Embed | linbox/algorithms/smith-form-iliopoulos.h:422-426 | writing through the view changes only the trailing block: row 0 and column 0 are kept |
| Diagonalization.EmbedSub | linbox/algorithms/smith-form-iliopoulos.h:422-424 | writing back the unchanged view gives back the matrix |
| Diagonalization.SubEmbed | linbox/algorithms/smith-form-iliopoulos.h:422-426 | reading the view after writing S through it gives S |
| Diagonalization.EmbedReduced | linbox/algorithms/smith-form-iliopoulos.h:420-426 | a converged first row and column with a reduced trailing block form a reduced matrix |
| Diagonalization.EmbedDivisors | linbox/algorithms/smith-form-iliopoulos.h:420-426 | if the recursion keeps the divisors of the view, the whole matrix keeps the common divisors of its entries |
| Diagonalization.DiagonalizationIn | linbox/algorithms/smith-form-iliopoulos.h:404-429 | an empty matrix is returned as is; otherwise the shape is kept, the result is reduced (zero below the diagonal, each diagonal entry divides its row), and the common divisors of all entries are kept; the result is U A V for products U, V of invertible elementary row and column operations |
| Diagonalization.AddToColumns | linbox/algorithms/smith-form-iliopoulos.h:420-426 | adding q[k] times column c to every column k from j on is a column equivalence that changes exactly those columns |
| Diagonalization.LiftRun | linbox/algorithms/smith-form-iliopoulos.h:422-426 | steps applied through the view of a matrix whose first row and column are zero except the pivot are steps of the whole matrix that change only the view |
| Diagonalization.EmbedEquivalent | linbox/algorithms/smith-form-iliopoulos.h:420-426 | writing back through the view a result equivalent to the view gives a matrix equivalent to the converged one |
| DiagonalForm.ReducedEquivalent | linbox/algorithms/smith-form-iliopoulos.h:445-463 | a reduced matrix is column-equivalent to the diagonal matrix of its first min(rowdim, coldim) diagonal entries, so smithFormIn may work on the diagonal alone |
| DiagonalForm.SwapEquivalent | linbox/algorithms/smith-form-iliopoulos.h:471-472 | exchanging a zero d_i with d_j keeps the diagonal matrix equivalent |
| DiagonalForm.GcdEquivalent | linbox/algorithms/smith-form-iliopoulos.h:476-482 | replacing non-zero (d_i, d_j) by (g, d_j/g * d_i) with g = gcd(d_j, d_i) keeps the diagonal matrix equivalent |
| DiagonalForm.NegateEquivalent | linbox/algorithms/smith-form-iliopoulos.h:485 | replacing a diagonal entry by its negation, as normalIn may, keeps the diagonal matrix equivalent |
| SmithForm.UnitHead | linbox/algorithms/smith-form-iliopoulos.h:467 | a unit diagonal entry already divides all later ones, so the scan can stop |
| SmithForm.SwapStep | linbox/algorithms/smith-form-iliopoulos.h:471-472 | swapping a zero d_i with a non-zero d_j extends the divided prefix and keeps divisors, product and zero count |
| SmithForm.GcdStep | linbox/algorithms/smith-form-iliopoulos.h:476-482 | replacing (d_i, d_j) by (g, d_j/g * d_i) with g = gcd extends the divided prefix and keeps divisors, product and zero count |
| SmithForm.ScanFrom | linbox/algorithms/smith-form-iliopoulos.h:465-484 | after the inner loop d_i divides every later entry; earlier entries, the common divisors from i on, the product and the number of zeros are unchanged |
| SmithForm.ScanAll | linbox/algorithms/smith-form-iliopoulos.h:463-486 | the outer loop leaves a non-negative divisibility chain with the same common divisors, the same product up to sign and the same number of zeros |
| SmithForm.Normalize | linbox/algorithms/smith-form-iliopoulos.h:457-486 | the normalised diagonal is a non-negative chain d_1, d_2, ... with each entry dividing the next, with the input's common divisors, product up to sign and zero count |
| SmithForm.ScanFromEquivalent | linbox/algorithms/smith-form-iliopoulos.h:465-484 | the diagonal matrix after the inner loop is equivalent to the one before |
| SmithForm.ScanAllEquivalent | linbox/algorithms/smith-form-iliopoulos.h:463-486 | the diagonal matrix after the outer loop is equivalent to the one before |
| SmithForm.NormalizeEquivalent | linbox/algorithms/smith-form-iliopoulos.h:457-486 | the diagonal matrix of the normalised diagonal is equivalent to the diagonal matrix of the input |
| SmithForm.NormalizeFixesChains | linbox/algorithms/smith-form-iliopoulos.h:457-486 | a non-negative divisibility chain is left unchanged |
| SmithForm.NormalizeIdempotent | linbox/algorithms/smith-form-iliopoulos.h:457-486 | normalising twice is normalising once |
| SmithForm.DiagonalOfSetDiagonal | linbox/algorithms/smith-form-iliopoulos.h:463-486 | the diagonal read back after writing d is d |
| SmithForm.SetDiagonalOfDiagonal | linbox/algorithms/smith-form-iliopoulos.h:463-486 | writing back the diagonal that was read changes nothing |
| SmithForm.ReducedDivisors | linbox/algorithms/smith-form-iliopoulos.h:404-429 | for a reduced matrix, the common divisors of all entries are those of the diagonal |
| SmithForm.SmithFormIn | linbox/algorithms/smith-form-iliopoulos.h:445-489 | only diagonal entries change after diagonalization; the result is zero below the diagonal, its diagonal is a non-negative divisibility chain, and d divides all entries of A exactly when d divides every invariant factor; A is equivalent (U A V) to the rowdim x coldim diagonal matrix of the invariant factors |
| SmithForm.SmithFormEquivalent | linbox/algorithms/smith-form-iliopoulos.h:445-489 | A is equivalent to the diagonal matrix of the normalised diagonal of diagonalizationIn's result |
| SmithForm.SmithFormProduct | linbox/algorithms/smith-form-iliopoulos.h:445-489 | the product of the invariant factors equals, up to sign, the product of the diagonal after diagonalization; the number of zero factors is kept as well |
| SmithForm.ReadDiagonal | linbox/algorithms/smith-form-iliopoulos.h:439-441 | reading getEntry(i, i) for i < n succeeds exactly when n fits both dimensions, and then gives B[i][i] |
| SmithForm.SolveAsWritten | linbox/algorithms/smith-form-iliopoulos.h:434-443 | the factor vector has rowdim entries; no convergence is an error; with at most as many rows as columns the read succeeds and gives exactly the factors of solve |
| SmithForm.SolveAsWrittenTall | linbox/algorithms/smith-form-iliopoulos.h:439-441 | with more rows than columns the read runs past the last column |
| SmithForm.Solve | linbox/algorithms/smith-form-iliopoulos.h:434-443 | the result has min(rowdim, coldim) factors forming a non-negative chain whose common divisors are those of all entries of A; A is equivalent (U A V) to the rowdim x coldim diagonal matrix of the factors, so together with the chain property they are a Smith normal form of A |
| SmithForm.FirstFactorIsGcd | linbox/algorithms/smith-form-iliopoulos.h:445-489 | the first invariant factor is non-negative, divides every entry, and is divided by every common divisor of the entries |
| SmithExample.ExpandLength | examples/smith.C:540-557 | the counts of an encoding add up to the length of what it encodes |
| SmithExample.Runs | examples/smith.C:547-556 | the runs of a non-empty s are well formed (positive counts, distinct neighbours) and expand to s |
| SmithExample.Distinct | examples/smith.C:540-557 | appends to c a run-length encoding of s with positive counts and distinct neighbours whose expansion is s; c is kept as a prefix; an empty input appends nothing |
| SmithExample.FirstRun | examples/smith.C:540-557 | the first run of a well-formed encoding ends exactly where its value stops repeating |
| SmithExample.RunsUnique | examples/smith.C:540-557 | two well-formed encodings of the same sequence are equal, so distinct's output is determined by its input |
| SmithExample.NewPowerList | examples/smith.C:497-499 | the new cache holds 1 and q, each entry being q to the power of its index |
| SmithExample.ValidPowers | examples/smith.C:494-505 | every entry of a cache is the power of q its index names |
| SmithExample.Grow | examples/smith.C:500-504 | operator[](e) extends the cache to cover e, keeps every old entry and gives q^e at e |
| SmithExample.Lookup | examples/smith.C:500-504 | the loop grows the cache exactly as Grow does and returns q^e |
| SmithExample.SkipSpaces | examples/smith.C:512 | the reader stops on the first non-whitespace character at or after pos |
| SmithExample.ParseInt | examples/smith.C:519 | a successful read of an int consumes at least one character and stops before a digit |
| SmithExample.QReadPower | examples/smith.C:518-520 | q^e succeeds exactly when a non-negative exponent follows the caret, and then gives q^e from the cache |
| SmithExample.QReadToken | examples/smith.C:514-520 | 0 and 1 give their value, p or q without caret gives q, p^e or q^e gives q^e, any other character or the end of input is an error |
| SmithExample.QRead | examples/smith.C:509-523 | qread after whitespace: the token cases above, the cache only grows and keeps q |
| SmithExample.QReadRender | examples/smith.C:509-523 | reading back the text of any token gives its value at q and consumes exactly that text |
| SmithExample.Flip | examples/smith.C:206-209 | representation adapter: swaps each (count, value) pair of the local list into the (value, count) run form that the expansion reads, keeping order and length |
| SmithExample.ExpandLocal | examples/smith.C:206-209 | the expanded list is the expansion of the flipped pairs |
| SmithExample.PadZeros | examples/smith.C:212-214 | the list is padded with zeros to at least n entries, keeping its prefix |
| SmithExample.LocalList | examples/smith.C:206-214 | the list holds the expansion of the pairs followed only by zeros, and has exactly max(expansion length, min(rowdim, coldim)) entries |
| SmithExample.LocalPairsRecovered | examples/smith.C:206-214 | encoding the expanded list recovers the pairs when they already form a well-formed encoding |
| SmithExample.Dispatch | examples/smith.C:116-300 | a recognised name runs the branch of that name; any other name exits with -1 and "Unknown algorithms" |
| SmithExample.DispatchByName | examples/smith.C:116-300 | every branch is reached by its own name |
| SmithExample.IlioReport | examples/smith.C:144-167 | the reported list exists exactly when the Smith form was computed, and is a well-formed run-length encoding of the invariant factors |
| SmithExample.IlioListTall | examples/smith.C:162-163 | for a tall matrix the diagonal read for i < rowdim runs past the columns |
| SmithExample.IlioListAsWritten | examples/smith.C:152-167 | as written: no convergence is an error; a tall matrix is always an error; otherwise the report exists exactly when solve succeeds and is a well-formed run-length encoding of its factors |
| VectorTraits.CategoryOf | linbox/linbox/vector/vector-traits.h:76-98 | dense exactly for std::vector of elements, sparse sequence exactly for vector, list or deque of index pairs, sparse associative exactly for map; no category otherwise |
| VectorTraits.LookupAt | linbox/linbox/vector/vector-traits.h:109-125 | in a sorted sparse sequence, the value at a stored index is the stored value |
| VectorTraits.LookupAbsent | linbox/linbox/vector/vector-traits.h:141-156 | an index with no stored pair has value zero |
| VectorTraits.FindPos | linbox/linbox/vector/vector-traits.h:116 | the scan stops at the first pair whose index is not below i |
| VectorTraits.FindPosPresent | linbox/linbox/vector/vector-traits.h:116-118 | in a sorted sequence the scan stops on i exactly when i is stored |
| VectorTraits.SparseRef | linbox/linbox/vector/vector-traits.h:109-125 | the returned position holds index i; a stored index changes nothing; otherwise (i, 0) is inserted in order |
| VectorTraits.SparseInsertSorted | linbox/linbox/vector/vector-traits.h:116-121 | inserting (i, 0) at the scan position keeps the indices strictly increasing |
| VectorTraits.SparseInsertKeepsValues | linbox/linbox/vector/vector-traits.h:118-121 | the inserted (i, 0) changes no coordinate of the vector |
| VectorTraits.Ref | linbox/linbox/vector/vector-traits.h:104-134 | ref keeps the category, well-formedness and every coordinate, and gives the value at i; dense vectors and stored sparse indices are untouched; a map gains key i |
| VectorTraits.ConstRef | linbox/linbox/vector/vector-traits.h:136-165 | constRef gives the value at i and changes no coordinate; dense and sparse sequences are untouched, a map gains key i |
| VectorTraits.WriteRefRoundTrip | linbox/linbox/vector/vector-traits.h:104-134 | after writing x through ref(v, i), coordinate i reads x, every other coordinate is unchanged, and the vector stays well formed |
| VectorTraits.EnsureDim | linbox/linbox/vector/vector-traits.h:167-181 | a dense vector is resized to n, keeping its prefix and filling with zeros; sparse vectors are unchanged |
| BlockedMatrix.GetBlock | linbox/matrix/blockedmatrix/blocked-matrix.h:258-269 | a stored block has blockRows rows of blockCols entries |
| BlockedMatrix.Rowdim | linbox/matrix/blockedmatrix/blocked-matrix.h:202-204 | rowdim is a whole number of blocks: divided by the block height it gives the number of block rows; it is zero only for an empty grid or empty blocks |
| BlockedMatrix.Coldim | linbox/matrix/blockedmatrix/blocked-matrix.h:209-211 | coldim divided by the block width gives the number of block columns exactly; it is zero only for an empty grid or empty blocks |
| BlockedMatrix.GetEntry | linbox/matrix/blockedmatrix/blocked-matrix.h:307-322 | entry (i, j) is read from block (i / blockRows, j / blockCols), which lies inside the grid, at offset (i % blockRows, j % blockCols) |
| BlockedMatrix.SetBlock | linbox/matrix/blockedmatrix/blocked-matrix.h:249-251 | the block at (i, j) reads back as the one set, every other block is unchanged, the shape is kept |
| BlockedMatrix.SplitIndex | linbox/matrix/blockedmatrix/blocked-matrix.h:294-300 | an index below rowdim = rows*blockRows has a block index below rows and an offset below blockRows |
| BlockedMatrix.IndexRange | linbox/matrix/blockedmatrix/blocked-matrix.h:202-211 | an index is below rows*blockRows exactly when its block index is below rows |
| BlockedMatrix.DimensionsCoverBlocks | linbox/matrix/blockedmatrix/blocked-matrix.h:202-211 | rowdim and coldim are exactly the indices whose block lies in the grid |
| BlockedMatrix.Join | linbox/matrix/blockedmatrix/blocked-matrix.h:294-300 | offset a of block q is the global index that splits back into q and a |
| BlockedMatrix.Locate | linbox/matrix/blockedmatrix/blocked-matrix.h:294-313 | entry (i, j) lives in block (i / blockRows, j / blockCols) at (i % blockRows, j % blockCols), inside the grid |
| BlockedMatrix.LocateInjective | linbox/matrix/blockedmatrix/blocked-matrix.h:294-313 | different entries are stored in different places |
| BlockedMatrix.SetEntry | linbox/matrix/blockedmatrix/blocked-matrix.h:294-300 | getEntry(i, j) reads x afterwards, every other entry is unchanged, the shape is kept |
| BlockedMatrix.Dense | linbox/matrix/blockedmatrix/blocked-matrix.h:307-322 | the dense view is rowdim x coldim with every entry equal to getEntry |
| BlockedMatrix.DenseSetEntry | linbox/matrix/blockedmatrix/blocked-matrix.h:294-322 | setEntry changes the dense view exactly at (i, j) |
| BlockedMatrix.CopyFromMatrix | linbox/matrix/blockedmatrix/blocked-matrix.h:347-359 | entries inside m's dimensions are copied from m, the others are unchanged; for an m of exactly the blocked shape the dense view becomes m |
| BlockedMatrix.CopyToMatrix | linbox/matrix/blockedmatrix/blocked-matrix.h:367-379 | entries inside rowdim x coldim of m are copied from the blocked matrix, the others are unchanged; for an m of exactly that shape the result is the dense view |
| BlockedMatrix.DenseIs | linbox/matrix/blockedmatrix/blocked-matrix.h:347-379 | a dense matrix agreeing with every getEntry is the dense view, which makes the two copies inverse |
| BlockedMatrix.CopyBlocks | linbox/matrix/blockedmatrix/blocked-matrix.h:144-148 | copying every block of an equally shaped matrix yields that matrix |
| BlockedMatrix.Copy | linbox/matrix/blockedmatrix/blocked-matrix.h:133-149 | the copy has the source's shape, its blocks and its dense view |
| BlockedMatrix.Assign | linbox/matrix/blockedmatrix/blocked-matrix.h:154-186 | after assignment the matrix has the right-hand side's shape and dense view; self-assignment changes nothing |
| BlockedMatrix.AlignedAsWritten | linbox/matrix/blockedmatrix/blocked-matrix.h:422-450 | the view's block size is taken from the parent's block-grid dimensions |
| BlockedMatrix.AlignedAsWrittenDims | linbox/matrix/blockedmatrix/blocked-matrix.h:472-481 | the whole-matrix view of a 3 x 2 grid of 2 x 1 blocks reports 9 x 4 instead of 6 x 2 |
| BlockedMatrix.AlignedView | linbox/matrix/blockedmatrix/blocked-matrix.h:422-450 | the view of m x n blocks has rowdim m*blockRows and coldim n*blockCols, and the view of the whole grid has the parent's dimensions |
| BlockedMatrix.ViewInsideParent | linbox/matrix/blockedmatrix/blocked-matrix.h:469-481 | every entry index of a fitting view lies inside the parent |
| BlockedMatrix.ViewRowdim | linbox/matrix/blockedmatrix/blocked-matrix.h:472-474 | the view's rowdim divided by its block height gives its number of block rows exactly; it is zero only for an empty view or empty blocks |
| BlockedMatrix.ViewColdim | linbox/matrix/blockedmatrix/blocked-matrix.h:479-481 | the view's coldim divided by its block width gives its number of block columns exactly; it is zero only for an empty view or empty blocks |
| BlockedMatrix.ViewGetBlock | linbox/matrix/blockedmatrix/blocked-matrix.h:529-540 | block (i, j) of the view has entry (a, b) equal to the parent's entry at block (r0+i, c0+j), offset (a, b) |
| BlockedMatrix.ViewSetBlock | linbox/matrix/blockedmatrix/blocked-matrix.h:520-522 | the view's block reads back as the one set, the parent's entries in that block equal it, and every parent entry outside the block is unchanged |

## Left out

- Rings other than the integers are not modelled: the `PIRModular<int32_t>` of the `ilio` branch, `Local2_32`, and the Givaro fields. Their capability sets behave differently; for instance, modular rings have zero divisors and more units. The integers satisfy the contract the elimination relies on.
- Fixed-width integers are not modelled: the `int32_t` modulus, `KratMat`'s `int Val`, `qread`'s `int expt` (examples/smith.C:519), and `(int)` casts of dimensions. All of them become unbounded integers.
- The `adaptive`, `local` and `2local` branches are not modelled beyond their names, because they call `SmithFormAdaptive`, `PowerGaussDomain` and `SmithFormLocal`, which are not part of this model. For `local`, only the expansion and zero padding of its `(count, value)` list is modelled.
- I/O is not modelled:
  - matrix reading (`Mat`, `MatrixStream`), the timers, `display` and all printing.
  - `qread` reads from a string and a position instead of an `istream`.
  - Its "unknown char" exit becomes an error result.
  - End of input, a missing exponent and a negative exponent also become errors. In the C++ they behave differently: end of input leaves `c` unset; a missing exponent makes `in >> expt` fail, so `expt` reads as 0 and `c` becomes `M[0] = 1` with the stream left failed; a negative exponent makes `pwrlist::operator[]` (examples/smith.C:500-504) skip its extension loop and index `m[(size_t)e]` out of range.
- Termination of the convergence loop and of the recursion in `diagonalizationIn` is not proved. Both take a `fuel` bound, and `None` stands for running out of it.
- The exact cofactors of `xgcd` are not modelled. `ZRing` computes them with `mpz_gcdext`, which picks minimal cofactors (for a = 5, b = −3 it gives g = 1, s = −1, t = −2, where the model's extended Euclid gives s = 2, t = 3). The entries that depend on the cofactors are therefore not those of the C++: the intermediate and off-diagonal entries of `EliminationRow`, `DiagonalizationIn` and the matrix returned by `SmithFormIn`. The invariant factors themselves do not depend on the cofactors, since the Smith form of a matrix is unique (a fact of algebra that this model does not prove).
- The in-place mutation and the returned `Matrix&` references are modelled as returned values.
- The `solve` copy is modelled as value semantics.
- Floating point and timing are not modelled. The core has neither.
- Storage is not modelled: `BlockedMatrix`'s allocator, the `Block_t` handle type, and aliasing. A `Block_t` is a pointer-like handle, so `setBlock` in the C++ may share a block between two matrices. The model copies block values.
- `BlockedMatrix.Assign`: the field comparison in `operator=` is not modelled (all matrices are over the integers). Neither is the reallocation when the shapes differ. The missing `return *this` at the end of `operator=` is modelled as returning the assigned matrix.
- Entry-level access through `AlignedBlockedSubmatrix` (`setEntry`, `refEntry`, `getEntry` at 564-605) is not modelled. Neither are its copy constructor and the `getBlock(x, i, j)` overloads. Only the block-level interface of the view is modelled.
- The undeclared `F` in the sparse `ref` and `constRef` specialisations (vector-traits.h:119, 151) is not modelled; the model uses zero directly. The function-static `zero` that `constRef` returns is not modelled either.
- Iterator invalidation on `std::vector::insert` is not modelled; the insertion is modelled with list semantics.
- `VectorTraits.ConstRef`: for a dense vector the index must be in range, as the source assumes; `ensureDim` is how callers provide that.

- SmithForm.Solve: uniqueness of the Smith form is not proved. The model shows that A is equivalent to the diagonal matrix of a non-negative divisibility chain, not that every such chain equivalent to A is the same one.
- SmithForm.SmithFormProduct: relates the product of the factors to the diagonal after `diagonalizationIn`, not to the determinant of A. Determinants are not defined in the model; for a square A the link goes through the equivalence stated by SmithForm.Solve.
- SmithForm.SmithFormIn: the returned matrix itself is not claimed equivalent to A, because it keeps the off-diagonal entries of `diagonalizationIn`'s result; only the diagonal matrix of its invariant factors is.

## Findings

| source | as written | input that shows it | evidently intended | confidence | as-written member | corrected member |
|---|---|---|---|---|---|---|
| linbox/algorithms/smith-form-iliopoulos.h:439-441 | `solve` resizes the factor vector to `rowdim` and reads `getEntry(i, i)` for every `i < rowdim` | any 3 x 2 matrix: the read of entry (2, 2) lies past the last column | read the min(rowdim, coldim) diagonal entries | not executed | SmithForm.SolveAsWrittenTall | SmithForm.Solve |
| examples/smith.C:162-163 | the `ilio` branch pushes `M[i][i]` for every `i < M.rowdim()` | an `n x k` input matrix with `n > k`, e.g. 3 x 2: `M[2][2]` is out of range | read the min(rowdim, coldim) diagonal entries | not executed | SmithExample.IlioListAsWritten | SmithExample.IlioReport |
| linbox/matrix/blockedmatrix/blocked-matrix.h:431-432 | the view's rows-per-block is initialised from `M.blockRowdim()` (the number of block rows), and its cols-per-block likewise at 446-447 | a 3 x 2 grid of 2 x 1 blocks, whole-matrix view: rowdim 9 and coldim 4 instead of 6 and 2 | take the block size from `M.rowsPerBlock()` and `M.colsPerBlock()` | not executed | BlockedMatrix.AlignedAsWrittenDims | BlockedMatrix.AlignedView |
