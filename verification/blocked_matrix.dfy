/**
 BlockedMatrix: a matrix stored as a grid of equally sized dense blocks, with
 entry access that splits a global index into (block, offset within block),
 whole-matrix copies in and out, and AlignedBlockedSubmatrix, a window onto a
 rectangle of whole blocks of a parent BlockedMatrix.
 */
module BlockedMatrix {
  import opened Ints
  import opened Matrices

  /** X has exactly m rows of n entries. */
  predicate HasShape(X: Matrix, m: nat, n: nat) {
    |X| == m && forall a :: 0 <= a < m ==> |X[a]| == n
  }

  /**
   The members `_rows`, `_cols` (numbers of block rows and block columns),
   `_block_rows`, `_block_cols` (size of each block) and the block storage.
   */
  datatype Blocked = Blocked(rows: nat, cols: nat, blockRows: nat, blockCols: nat,
                             blocks: seq<seq<Matrix>>)

  /** The storage holds rows x cols blocks, each blockRows x blockCols. */
  predicate WellFormed(M: Blocked) {
    |M.blocks| == M.rows &&
    (forall b :: 0 <= b < M.rows ==> |M.blocks[b]| == M.cols) &&
    (forall b, c :: 0 <= b < M.rows && 0 <= c < M.cols ==>
       HasShape(M.blocks[b][c], M.blockRows, M.blockCols))
  }

  /** Two blocked matrices with the same four dimensions. */
  predicate SameShape(M: Blocked, N: Blocked) {
    M.rows == N.rows && M.cols == N.cols && M.blockRows == N.blockRows && M.blockCols == N.blockCols
  }

  /** `rowdim`: overall number of rows. */
  function Rowdim(M: Blocked): (r: nat)
    ensures M.blockRows > 0 ==> r / M.blockRows == M.rows && r % M.blockRows == 0
    ensures r == 0 <==> M.rows == 0 || M.blockRows == 0
  {
    WholeBlocks(M.rows, M.blockRows);
    M.rows * M.blockRows
  }

  /** `coldim`: overall number of columns. */
  function Coldim(M: Blocked): (c: nat)
    ensures M.blockCols > 0 ==> c / M.blockCols == M.cols && c % M.blockCols == 0
    ensures c == 0 <==> M.cols == 0 || M.blockCols == 0
  {
    WholeBlocks(M.cols, M.blockCols);
    M.cols * M.blockCols
  }

  // ---------------------------------------------------------------------
  // Index arithmetic
  // ---------------------------------------------------------------------

  /** n blocks of size b: a whole number of blocks, empty only when n or b is zero. */
  lemma WholeBlocks(n: nat, b: nat)
    ensures b > 0 ==> (n * b) / b == n && (n * b) % b == 0
    ensures n * b == 0 <==> n == 0 || b == 0
  {
    if b > 0 {
      JoinIndex(n, 0, b);
      if n > 0 {
        MulMonotone(1, n, b);
      }
    }
  }

  /** Multiplying by a non-negative factor keeps the order. */
  lemma MulMonotone(x: int, y: int, b: int)
    requires b >= 0
    ensures x <= y ==> x * b <= y * b
  {
    if x <= y {
      MulNonNeg(y - x, b);
      assert y * b == x * b + (y - x) * b;
    }
  }

  /** A global index below n*b falls in one of the n blocks of size b. */
  lemma SplitIndex(i: nat, n: nat, b: nat)
    requires i < n * b
    ensures b > 0 && i / b < n && i % b < b
  {
    assert b > 0;
    var q := i / b;
    assert i == q * b + i % b;
    MulMonotone(n, q, b);
  }

  /** A global index is below n*b exactly when its block index is below n. */
  lemma IndexRange(i: nat, n: nat, b: nat)
    requires b > 0
    ensures i < n * b <==> i / b < n
  {
    var q := i / b;
    assert i == q * b + i % b;
    assert (q + 1) * b == q * b + b;
    MulMonotone(q + 1, n, b);
    MulMonotone(n, q, b);
  }

  /** An index is determined by its block and its offset. */
  lemma SplitInjective(i: nat, k: nat, b: nat)
    requires b > 0
    ensures i / b == k / b && i % b == k % b ==> i == k
  {
    assert i == (i / b) * b + i % b;
    assert k == (k / b) * b + k % b;
  }

  /** Block q at offset a is the global index q*b + a, and nothing else is. */
  lemma JoinIndex(q: nat, a: nat, b: nat)
    requires a < b
    ensures (q * b + a) / b == q && (q * b + a) % b == a
  {
    var k := q * b + a;
    var q', a' := k / b, k % b;
    assert k == q' * b + a';
    assert (q' - q) * b == a - a';
    if q' != q {
      MulAbsGe(q' - q, b);
    }
  }

  /**
   The global index of offset a in block q, for n blocks of size b: the
   inverse of splitting an index into (i / b, i % b).
   */
  function Join(q: nat, a: nat, b: nat, n: nat): (i: nat)
    requires a < b && q < n
    ensures i < n * b && i / b == q && i % b == a
  {
    JoinBound(q, a, b, n);
    JoinIndex(q, a, b);
    q * b + a
  }

  /** Offset a of block q lies below n*b. */
  lemma JoinBound(q: nat, a: nat, b: nat, n: nat)
    requires a < b && q < n
    ensures q * b + a < n * b
  {
    assert (q + 1) * b == q * b + b;
    MulMonotone(q + 1, n, b);
  }

  // ---------------------------------------------------------------------
  // Blocks
  // ---------------------------------------------------------------------

  /** `getBlock`/`refBlock`: the block at block position (bi, bj). */
  function GetBlock(M: Blocked, bi: nat, bj: nat): (X: Matrix)
    requires WellFormed(M) && bi < M.rows && bj < M.cols
    ensures HasShape(X, M.blockRows, M.blockCols)
  {
    M.blocks[bi][bj]
  }

  /** `setBlock(i, j, a_ij)`: replace one block. */
  function SetBlock(M: Blocked, bi: nat, bj: nat, X: Matrix): (M': Blocked)
    requires WellFormed(M) && bi < M.rows && bj < M.cols && HasShape(X, M.blockRows, M.blockCols)
    ensures WellFormed(M') && SameShape(M, M')
    ensures GetBlock(M', bi, bj) == X
    ensures forall b, c :: 0 <= b < M.rows && 0 <= c < M.cols && (b != bi || c != bj) ==>
      GetBlock(M', b, c) == GetBlock(M, b, c)
  {
    M.(blocks := M.blocks[bi := M.blocks[bi][bj := X]])
  }

  // ---------------------------------------------------------------------
  // Entries
  // ---------------------------------------------------------------------

  /** Where an entry is stored: block row and column, then row and column within the block. */
  datatype Place = Place(bi: nat, bj: nat, oi: nat, oj: nat)

  /** Entry (i, j) lives in block (i / br, j / bc) at (i % br, j % bc). */
  function Locate(M: Blocked, i: nat, j: nat): (l: Place)
    requires i < M.rows * M.blockRows && j < M.cols * M.blockCols
    ensures l.bi < M.rows && l.bj < M.cols && l.oi < M.blockRows && l.oj < M.blockCols
    ensures M.blockRows > 0 && M.blockCols > 0 &&
      l == Place(i / M.blockRows, j / M.blockCols, i % M.blockRows, j % M.blockCols)
  {
    SplitIndex(i, M.rows, M.blockRows);
    SplitIndex(j, M.cols, M.blockCols);
    Place(i / M.blockRows, j / M.blockCols, i % M.blockRows, j % M.blockCols)
  }

  /** Different entries are stored in different places. */
  lemma LocateInjective(M: Blocked, i: nat, j: nat, a: nat, b: nat)
    requires i < Rowdim(M) && j < Coldim(M) && a < Rowdim(M) && b < Coldim(M)
    ensures Locate(M, i, j) == Locate(M, a, b) ==> i == a && j == b
  {
    var _ := Locate(M, i, j);
    SplitInjective(i, a, M.blockRows);
    SplitInjective(j, b, M.blockCols);
  }

  /** `getEntry`/`refEntry`: the stored value at the entry's place. */
  function GetEntry(M: Blocked, i: nat, j: nat): (x: int)
    requires WellFormed(M) && i < Rowdim(M) && j < Coldim(M)
    ensures var l := Locate(M, i, j);
      && i == l.bi * M.blockRows + l.oi && j == l.bj * M.blockCols + l.oj
      && x == M.blocks[l.bi][l.bj][l.oi][l.oj]
  {
    var l := Locate(M, i, j);
    M.blocks[l.bi][l.bj][l.oi][l.oj]
  }

  /** Write x at (a, b) of a block. */
  function SetInBlock(X: Matrix, a: nat, b: nat, x: int): (Y: Matrix)
    requires a < |X| && b < |X[a]|
    ensures |Y| == |X| && forall r :: 0 <= r < |X| ==> |Y[r]| == |X[r]|
    ensures Y[a][b] == x
    ensures forall r, c :: 0 <= r < |X| && 0 <= c < |X[r]| && (r != a || c != b) ==> Y[r][c] == X[r][c]
  {
    X[a := X[a][b := x]]
  }

  /**
   `setEntry(i, j, a_ij)`: write through the block holding (i, j). Reading
   (i, j) back gives a_ij, and every other entry keeps its value because the
   (block, offset) decomposition of an index is unique.
   */
  function SetEntry(M: Blocked, i: nat, j: nat, x: int): (M': Blocked)
    requires WellFormed(M) && i < Rowdim(M) && j < Coldim(M)
    ensures WellFormed(M') && SameShape(M, M')
    ensures GetEntry(M', i, j) == x
    ensures forall a: nat, b: nat :: a < Rowdim(M) && b < Coldim(M) && (a != i || b != j) ==>
      GetEntry(M', a, b) == GetEntry(M, a, b)
  {
    var l := Locate(M, i, j);
    var M' := SetBlock(M, l.bi, l.bj, SetInBlock(GetBlock(M, l.bi, l.bj), l.oi, l.oj, x));
    SetEntryFrame(M, M', i, j);
    M'
  }

  lemma SetEntryFrame(M: Blocked, M': Blocked, i: nat, j: nat)
    requires WellFormed(M) && WellFormed(M') && SameShape(M, M') && i < Rowdim(M) && j < Coldim(M)
    requires var l := Locate(M, i, j);
      forall b, c :: 0 <= b < M.rows && 0 <= c < M.cols && (b != l.bi || c != l.bj) ==>
        M'.blocks[b][c] == M.blocks[b][c]
    requires var l := Locate(M, i, j);
      forall r, c :: 0 <= r < M.blockRows && 0 <= c < M.blockCols && (r != l.oi || c != l.oj) ==>
        M'.blocks[l.bi][l.bj][r][c] == M.blocks[l.bi][l.bj][r][c]
    ensures forall a: nat, b: nat :: a < Rowdim(M) && b < Coldim(M) && (a != i || b != j) ==>
      GetEntry(M', a, b) == GetEntry(M, a, b)
  {
    forall a: nat, b: nat | a < Rowdim(M) && b < Coldim(M) && (a != i || b != j)
      ensures GetEntry(M', a, b) == GetEntry(M, a, b)
    {
      EntryFrameAt(M, M', i, j, a, b);
    }
  }

  lemma EntryFrameAt(M: Blocked, M': Blocked, i: nat, j: nat, a: nat, b: nat)
    requires WellFormed(M) && WellFormed(M') && SameShape(M, M')
    requires i < Rowdim(M) && j < Coldim(M) && a < Rowdim(M) && b < Coldim(M) && (a != i || b != j)
    requires var l := Locate(M, i, j);
      forall b, c :: 0 <= b < M.rows && 0 <= c < M.cols && (b != l.bi || c != l.bj) ==>
        M'.blocks[b][c] == M.blocks[b][c]
    requires var l := Locate(M, i, j);
      forall r, c :: 0 <= r < M.blockRows && 0 <= c < M.blockCols && (r != l.oi || c != l.oj) ==>
        M'.blocks[l.bi][l.bj][r][c] == M.blocks[l.bi][l.bj][r][c]
    ensures GetEntry(M', a, b) == GetEntry(M, a, b)
  {
    var k, l := Locate(M, i, j), Locate(M, a, b);
    assert Locate(M', a, b) == l;
    LocateInjective(M, i, j, a, b);
    if l.bi == k.bi && l.bj == k.bj {
      assert l.oi != k.oi || l.oj != k.oj;
      assert M'.blocks[l.bi][l.bj][l.oi][l.oj] == M.blocks[l.bi][l.bj][l.oi][l.oj];
    } else {
      assert M'.blocks[l.bi][l.bj] == M.blocks[l.bi][l.bj];
    }
  }

  /** The whole matrix as a dense matrix of rowdim x coldim entries. */
  function Dense(M: Blocked): (D: Matrix)
    requires WellFormed(M)
    ensures HasShape(D, Rowdim(M), Coldim(M))
    ensures forall i: nat, j: nat :: i < Rowdim(M) && j < Coldim(M) ==> D[i][j] == GetEntry(M, i, j)
  {
    seq(Rowdim(M), (i: int) requires 0 <= i < Rowdim(M) =>
      seq(Coldim(M), (j: int) requires 0 <= j < Coldim(M) => GetEntry(M, i, j)))
  }

  /** rowdim and coldim are exactly the indices that reach a stored block. */
  lemma DimensionsCoverBlocks(M: Blocked, i: nat, j: nat)
    requires M.blockRows > 0 && M.blockCols > 0
    ensures i < Rowdim(M) <==> i / M.blockRows < M.rows
    ensures j < Coldim(M) <==> j / M.blockCols < M.cols
  {
    IndexRange(i, M.rows, M.blockRows);
    IndexRange(j, M.cols, M.blockCols);
  }

  /** setEntry changes the dense view in exactly one place. */
  lemma {:induction false} DenseSetEntry(M: Blocked, i: nat, j: nat, x: int)
    requires WellFormed(M) && i < Rowdim(M) && j < Coldim(M)
    ensures Dense(SetEntry(M, i, j, x)) == Dense(M)[i := Dense(M)[i][j := x]]
  {
    var D, E := Dense(M), Dense(SetEntry(M, i, j, x));
    var F := D[i := D[i][j := x]];
    forall a | 0 <= a < |E|
      ensures E[a] == F[a]
    {
      assert |E[a]| == |F[a]|;
      forall b | 0 <= b < |E[a]|
        ensures E[a][b] == F[a][b]
      {
      }
    }
  }

  /** A block matrix whose every entry is zero. */
  function Zero(rows: nat, cols: nat, blockRows: nat, blockCols: nat): (Z: Blocked)
    ensures WellFormed(Z) && Z.rows == rows && Z.cols == cols
    ensures Z.blockRows == blockRows && Z.blockCols == blockCols
    ensures forall i: nat, j: nat :: i < Rowdim(Z) && j < Coldim(Z) ==> GetEntry(Z, i, j) == 0
  {
    var block := seq(blockRows, _ => seq(blockCols, _ => 0));
    var Z := Blocked(rows, cols, blockRows, blockCols, seq(rows, _ => seq(cols, _ => block)));
    ZeroEntries(Z, block);
    Z
  }

  lemma ZeroEntries(Z: Blocked, block: Matrix)
    requires HasShape(block, Z.blockRows, Z.blockCols)
    requires forall a, b :: 0 <= a < Z.blockRows && 0 <= b < Z.blockCols ==> block[a][b] == 0
    requires Z.blocks == seq(Z.rows, _ => seq(Z.cols, _ => block))
    ensures WellFormed(Z)
    ensures forall i: nat, j: nat :: i < Rowdim(Z) && j < Coldim(Z) ==> GetEntry(Z, i, j) == 0
  {
    forall i: nat, j: nat | i < Rowdim(Z) && j < Coldim(Z)
      ensures GetEntry(Z, i, j) == 0
    {
      SplitIndex(i, Z.rows, Z.blockRows);
      SplitIndex(j, Z.cols, Z.blockCols);
      assert Z.blocks[i / Z.blockRows][j / Z.blockCols] == block;
    }
  }

  // ---------------------------------------------------------------------
  // Copies in and out
  // ---------------------------------------------------------------------

  /**
   `copyFromMatrix(m)`: every entry of m is written to the same position;
   the caller guarantees that m is no larger than the blocked matrix.
   */
  method CopyFromMatrix(M: Blocked, m: Matrix) returns (M': Blocked)
    requires WellFormed(M) && Rect(m) && |m| <= Rowdim(M) && Cols(m) <= Coldim(M)
    ensures WellFormed(M') && SameShape(M, M')
    ensures forall i: nat, j: nat :: i < Rowdim(M) && j < Coldim(M) ==>
      GetEntry(M', i, j) == if i < |m| && j < Cols(m) then m[i][j] else GetEntry(M, i, j)
    ensures HasShape(m, Rowdim(M), Coldim(M)) ==> Dense(M') == m
  {
    M' := M;
    for i := 0 to |m|
      invariant WellFormed(M') && SameShape(M, M')
      invariant forall a: nat, b: nat :: a < Rowdim(M) && b < Coldim(M) ==>
        GetEntry(M', a, b) == if a < i && b < Cols(m) then m[a][b] else GetEntry(M, a, b)
    {
      for j := 0 to Cols(m)
        invariant WellFormed(M') && SameShape(M, M')
        invariant forall a: nat, b: nat :: a < Rowdim(M) && b < Coldim(M) ==>
          GetEntry(M', a, b) == if (a < i && b < Cols(m)) || (a == i && b < j) then m[a][b] else GetEntry(M, a, b)
      {
        M' := SetEntry(M', i, j, m[i][j]);
      }
    }
    if HasShape(m, Rowdim(M), Coldim(M)) {
      DenseIs(M', m);
    }
  }

  /** A dense matrix agreeing with every entry is the dense view. */
  lemma DenseIs(M: Blocked, m: Matrix)
    requires WellFormed(M) && HasShape(m, Rowdim(M), Coldim(M))
    requires forall i: nat, j: nat :: i < Rowdim(M) && j < Coldim(M) ==> GetEntry(M, i, j) == m[i][j]
    ensures Dense(M) == m
  {
    var D := Dense(M);
    forall a | 0 <= a < |m|
      ensures D[a] == m[a]
    {
      assert |D[a]| == |m[a]|;
    }
  }

  /**
   `copyToMatrix(m)`: every entry of the blocked matrix is written to the same
   position of m; the caller guarantees that m is at least as large.
   */
  method CopyToMatrix(M: Blocked, m: Matrix) returns (m': Matrix)
    requires WellFormed(M) && Rect(m) && |m| >= Rowdim(M) && (Rowdim(M) > 0 ==> Cols(m) >= Coldim(M))
    ensures Rect(m') && |m'| == |m| && Cols(m') == Cols(m)
    ensures forall i, j :: 0 <= i < |m| && 0 <= j < Cols(m) ==>
      m'[i][j] == if i < Rowdim(M) && j < Coldim(M) then GetEntry(M, i, j) else m[i][j]
    ensures HasShape(m, Rowdim(M), Coldim(M)) ==> m' == Dense(M)
  {
    m' := m;
    for i := 0 to Rowdim(M)
      invariant Rect(m') && |m'| == |m| && Cols(m') == Cols(m)
      invariant forall a, b :: 0 <= a < |m| && 0 <= b < Cols(m) ==>
        m'[a][b] == if a < i && b < Coldim(M) then GetEntry(M, a, b) else m[a][b]
    {
      for j := 0 to Coldim(M)
        invariant Rect(m') && |m'| == |m| && Cols(m') == Cols(m)
        invariant forall a, b :: 0 <= a < |m| && 0 <= b < Cols(m) ==>
          m'[a][b] == if (a < i && b < Coldim(M)) || (a == i && b < j) then GetEntry(M, a, b) else m[a][b]
      {
        m' := m'[i := m'[i][j := GetEntry(M, i, j)]];
      }
    }
    if HasShape(m, Rowdim(M), Coldim(M)) {
      DenseIs(M, m');
    }
  }

  // ---------------------------------------------------------------------
  // Copy construction and assignment
  // ---------------------------------------------------------------------

  /** The block loop shared by the copy constructor and assignment: setBlock(i, j, rhs.getBlock(i, j)). */
  method CopyBlocks(M: Blocked, rhs: Blocked) returns (M': Blocked)
    requires WellFormed(M) && WellFormed(rhs) && SameShape(M, rhs)
    ensures M' == rhs
  {
    M' := M;
    for i := 0 to rhs.rows
      invariant WellFormed(M') && SameShape(M', rhs)
      invariant forall a :: 0 <= a < i ==> M'.blocks[a] == rhs.blocks[a]
    {
      for j := 0 to rhs.cols
        invariant WellFormed(M') && SameShape(M', rhs)
        invariant forall a :: 0 <= a < i ==> M'.blocks[a] == rhs.blocks[a]
        invariant forall c :: 0 <= c < j ==> M'.blocks[i][c] == rhs.blocks[i][c]
      {
        M' := SetBlock(M', i, j, GetBlock(rhs, i, j));
      }
      assert M'.blocks[i] == rhs.blocks[i];
    }
    assert M'.blocks == rhs.blocks;
  }

  /** The copy constructor: a fresh zero matrix of the same shape, then every block copied. */
  method Copy(rhs: Blocked) returns (M: Blocked)
    requires WellFormed(rhs)
    ensures WellFormed(M) && SameShape(M, rhs)
    ensures forall bi, bj :: 0 <= bi < rhs.rows && 0 <= bj < rhs.cols ==> GetBlock(M, bi, bj) == GetBlock(rhs, bi, bj)
    ensures Dense(M) == Dense(rhs)
  {
    var Z := Zero(rhs.rows, rhs.cols, rhs.blockRows, rhs.blockCols);
    M := CopyBlocks(Z, rhs);
  }

  /**
   `operator=`. `aliased` says whether the right-hand side is this very object,
   in which case nothing happens. Otherwise storage is reallocated when the
   shapes differ, and every block is copied.
   */
  method Assign(lhs: Blocked, rhs: Blocked, aliased: bool) returns (M: Blocked)
    requires WellFormed(lhs) && WellFormed(rhs)
    requires aliased ==> lhs == rhs
    ensures WellFormed(M) && SameShape(M, rhs)
    ensures Dense(M) == Dense(rhs)
    ensures aliased ==> M == lhs
  {
    if aliased {
      return lhs;
    }
    var target := lhs;
    if !SameShape(lhs, rhs) {
      target := Zero(rhs.rows, rhs.cols, rhs.blockRows, rhs.blockCols);
    }
    M := CopyBlocks(target, rhs);
  }

  // ---------------------------------------------------------------------
  // AlignedBlockedSubmatrix
  // ---------------------------------------------------------------------

  /**
   A window of rows x cols whole blocks whose top-left block is (r0, c0) of
   the parent. The parent is passed to every operation, since the view holds
   a reference to it.
   */
  datatype Aligned = Aligned(rows: nat, cols: nat, blockRows: nat, blockCols: nat, r0: nat, c0: nat)

  /** The window lies inside the parent's grid of blocks. */
  predicate Fits(v: Aligned, M: Blocked) {
    v.r0 + v.rows <= M.rows && v.c0 + v.cols <= M.cols
  }

  /** `rowdim` of the view. */
  function ViewRowdim(v: Aligned): (r: nat)
    ensures v.blockRows > 0 ==> r / v.blockRows == v.rows && r % v.blockRows == 0
    ensures r == 0 <==> v.rows == 0 || v.blockRows == 0
  {
    WholeBlocks(v.rows, v.blockRows);
    v.rows * v.blockRows
  }

  /** `coldim` of the view. */
  function ViewColdim(v: Aligned): (c: nat)
    ensures v.blockCols > 0 ==> c / v.blockCols == v.cols && c % v.blockCols == 0
    ensures c == 0 <==> v.cols == 0 || v.blockCols == 0
  {
    WholeBlocks(v.cols, v.blockCols);
    v.cols * v.blockCols
  }

  /**
   The constructors as written: the block size is taken from the parent's
   blockRowdim() and blockColdim(), which are its numbers of blocks.
   */
  function AlignedAsWritten(M: Blocked, rowbeg: nat, colbeg: nat, m: nat, n: nat): (v: Aligned)
    ensures v.rows == m && v.cols == n && v.r0 == rowbeg && v.c0 == colbeg
    ensures v.blockRows == M.rows && v.blockCols == M.cols
  {
    Aligned(m, n, M.rows, M.cols, rowbeg, colbeg)
  }

  /**
   The as-written view of a whole 3 x 2 grid of 2 x 1 blocks claims 9 rows and
   4 columns, while the parent has 6 rows and 2 columns.
   */
  lemma AlignedAsWrittenDims()
    ensures var M := Zero(3, 2, 2, 1);
      var v := AlignedAsWritten(M, 0, 0, 3, 2);
      ViewRowdim(v) == 9 && Rowdim(M) == 6 && ViewColdim(v) == 4 && Coldim(M) == 2
  {
    var M := Zero(3, 2, 2, 1);
    var v := AlignedAsWritten(M, 0, 0, 3, 2);
    assert v.blockRows == 3 && v.blockCols == 2;
  }

  /** The constructors with the block size taken from rowsPerBlock() and colsPerBlock(). */
  function AlignedView(M: Blocked, rowbeg: nat, colbeg: nat, m: nat, n: nat): (v: Aligned)
    ensures v.rows == m && v.cols == n && v.r0 == rowbeg && v.c0 == colbeg
    ensures ViewRowdim(v) == m * M.blockRows && ViewColdim(v) == n * M.blockCols
    ensures rowbeg == 0 && colbeg == 0 && m == M.rows && n == M.cols ==>
      ViewRowdim(v) == Rowdim(M) && ViewColdim(v) == Coldim(M)
  {
    Aligned(m, n, M.blockRows, M.blockCols, rowbeg, colbeg)
  }

  /**
   Every row and column of a fitting view is a row and column of the parent,
   shifted by the window's corner.
   */
  lemma {:induction false} ViewInsideParent(M: Blocked, rowbeg: nat, colbeg: nat, m: nat, n: nat, i: nat, j: nat)
    requires Fits(AlignedView(M, rowbeg, colbeg, m, n), M)
    requires i < ViewRowdim(AlignedView(M, rowbeg, colbeg, m, n))
    requires j < ViewColdim(AlignedView(M, rowbeg, colbeg, m, n))
    ensures rowbeg * M.blockRows + i < Rowdim(M)
    ensures colbeg * M.blockCols + j < Coldim(M)
  {
    assert rowbeg * M.blockRows + i < M.rows * M.blockRows by {
      WindowIndex(rowbeg, m, M.rows, M.blockRows, i);
    }
    assert colbeg * M.blockCols + j < M.cols * M.blockCols by {
      WindowIndex(colbeg, n, M.cols, M.blockCols, j);
    }
  }

  /** An index inside a window of m blocks starting at block beg is inside a grid of total blocks. */
  lemma WindowIndex(beg: nat, m: nat, total: nat, b: nat, i: nat)
    requires beg + m <= total && i < m * b
    ensures beg * b + i < total * b
  {
    SplitIndex(i, m, b);
    assert beg * b + i == (beg + i / b) * b + i % b;
    JoinBound(beg + i / b, i % b, b, total);
  }

  /**
   The view's `getBlock`/`refBlock` at (i, j): the parent's block
   (r0 + i, c0 + j), whose entries are the parent's entries at that block.
   */
  function ViewGetBlock(v: Aligned, M: Blocked, i: nat, j: nat): (X: Matrix)
    requires WellFormed(M) && Fits(v, M) && i < v.rows && j < v.cols
    ensures HasShape(X, M.blockRows, M.blockCols)
    ensures forall a, b :: 0 <= a < M.blockRows && 0 <= b < M.blockCols ==>
      X[a][b] == GetEntry(M, Join(v.r0 + i, a, M.blockRows, M.rows), Join(v.c0 + j, b, M.blockCols, M.cols))
  {
    GetBlock(M, v.r0 + i, v.c0 + j)
  }

  /**
   The view's `setBlock(i, j, X)`: the parent's block (r0 + i, c0 + j)
   becomes X, seen both through the view and as the parent's entries, and
   every parent entry outside that block keeps its value.
   */
  function ViewSetBlock(v: Aligned, M: Blocked, i: nat, j: nat, X: Matrix): (M': Blocked)
    requires WellFormed(M) && Fits(v, M) && i < v.rows && j < v.cols
    requires HasShape(X, M.blockRows, M.blockCols)
    ensures WellFormed(M') && SameShape(M, M')
    ensures ViewGetBlock(v, M', i, j) == X
    ensures forall a, b :: 0 <= a < M.blockRows && 0 <= b < M.blockCols ==>
      GetEntry(M', Join(v.r0 + i, a, M.blockRows, M.rows), Join(v.c0 + j, b, M.blockCols, M.cols)) == X[a][b]
    ensures forall a: nat, b: nat ::
      (a < Rowdim(M) && b < Coldim(M) && (a / M.blockRows != v.r0 + i || b / M.blockCols != v.c0 + j)) ==>
      GetEntry(M', a, b) == GetEntry(M, a, b)
  {
    var M' := SetBlock(M, v.r0 + i, v.c0 + j, X);
    assert ViewGetBlock(v, M', i, j) == X;
    ViewSetBlockFrame(v, M, M', i, j);
    M'
  }

  lemma ViewSetBlockFrame(v: Aligned, M: Blocked, M': Blocked, i: nat, j: nat)
    requires WellFormed(M) && WellFormed(M') && SameShape(M, M')
    requires v.r0 + i < M.rows && v.c0 + j < M.cols
    requires forall b, c :: 0 <= b < M.rows && 0 <= c < M.cols && (b != v.r0 + i || c != v.c0 + j) ==>
      GetBlock(M', b, c) == GetBlock(M, b, c)
    ensures forall a: nat, b: nat ::
      (a < Rowdim(M) && b < Coldim(M) && (a / M.blockRows != v.r0 + i || b / M.blockCols != v.c0 + j)) ==>
      GetEntry(M', a, b) == GetEntry(M, a, b)
  {
    forall a: nat, b: nat | a < Rowdim(M) && b < Coldim(M) &&
      (a / M.blockRows != v.r0 + i || b / M.blockCols != v.c0 + j)
      ensures GetEntry(M', a, b) == GetEntry(M, a, b)
    {
      OtherBlockEntry(M, M', v.r0 + i, v.c0 + j, a, b);
    }
  }

  /** An entry stored outside the replaced block reads the same before and after. */
  lemma OtherBlockEntry(M: Blocked, M': Blocked, bi: nat, bj: nat, a: nat, b: nat)
    requires WellFormed(M) && WellFormed(M') && SameShape(M, M')
    requires bi < M.rows && bj < M.cols && a < Rowdim(M) && b < Coldim(M)
    requires forall b, c :: 0 <= b < M.rows && 0 <= c < M.cols && (b != bi || c != bj) ==>
      GetBlock(M', b, c) == GetBlock(M, b, c)
    requires Locate(M, a, b).bi != bi || Locate(M, a, b).bj != bj
    ensures GetEntry(M', a, b) == GetEntry(M, a, b)
  {
    var l := Locate(M, a, b);
    assert Locate(M', a, b) == l;
    assert M'.blocks[l.bi][l.bj] == GetBlock(M', l.bi, l.bj) == GetBlock(M, l.bi, l.bj) == M.blocks[l.bi][l.bj];
  }
}
