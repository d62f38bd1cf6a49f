/**
 Diagonal matrices and the steps that keep smithFormIn's diagonal work
 within unimodular equivalence: a reduced (upper triangular, each diagonal
 entry dividing its row) matrix is column-equivalent to its diagonal, and the
 swap, gcd and sign steps of the normalisation loop are realised by
 elementary row and column operations on a 2 x 2 block.
 */
module DiagonalForm {
  import opened Ints
  import opened Matrices
  import opened Equivalence
  import opened Diagonalization

  function Min(a: nat, b: nat): nat {
    if a <= b then a else b
  }

  /** The first m diagonal entries. */
  function Diagonal(B: Matrix, m: nat): (d: seq<int>)
    requires Rect(B) && m <= |B| && m <= Cols(B)
    ensures |d| == m
    ensures forall i :: 0 <= i < m ==> d[i] == B[i][i]
  {
    seq(m, i requires 0 <= i < m => B[i][i])
  }

  /** The m x n matrix with d on its diagonal and zeros everywhere else. */
  function DiagMatrix(m: nat, n: nat, d: seq<int>): (D: Matrix)
    requires |d| <= m && |d| <= n
    ensures |D| == m && Rect(D) && (m > 0 ==> Cols(D) == n)
    ensures forall i, j :: 0 <= i < m && 0 <= j < n ==>
      D[i][j] == if i == j && i < |d| then d[i] else 0
  {
    seq(m, i requires 0 <= i < m => seq(n, j requires 0 <= j < n => if i == j && i < |d| then d[i] else 0))
  }

  /** The diagonal of a diagonal matrix is what was put there. */
  lemma DiagonalOfDiagMatrix(m: nat, n: nat, d: seq<int>)
    requires |d| <= m && |d| <= n
    ensures Diagonal(DiagMatrix(m, n, d), |d|) == d
  {}

  // ---------------------------------------------------------------------
  // A reduced matrix is column-equivalent to its diagonal
  // ---------------------------------------------------------------------

  /**
   R is upper triangular, rows before i hold only their diagonal entry, and
   from row i on each diagonal entry divides the rest of its row.
   */
  predicate ClearedBefore(R: Matrix, i: nat) {
    && Rect(R) && i <= Min(|R|, Cols(R))
    && (forall a, b :: 0 <= b < a < |R| && b < Cols(R) ==> R[a][b] == 0)
    && (forall a, b :: 0 <= a < i && a < b < Cols(R) ==> R[a][b] == 0)
    && (forall a, b :: i <= a < b < Cols(R) && a < |R| ==> IsDivisor(R[a][a], R[a][b]))
  }

  /**
   Subtracting multiples of the diagonal column clears the rest of row i; the
   other rows are unchanged because their entry in column i is zero.
   */
  lemma ClearRowEntries(R: Matrix, i: nat, q: seq<int>, R': Matrix)
    requires ClearedBefore(R, i) && i < Min(|R|, Cols(R))
    requires q == seq(Cols(R), k requires 0 <= k < Cols(R) => -Div(R[i][k], R[i][i]))
    requires R' == AddToColumns(R, i, q, i + 1)
    ensures Rect(R') && |R'| == |R| && Cols(R') == Cols(R)
    ensures forall a, b :: 0 <= a < |R| && 0 <= b < Cols(R) ==>
      R'[a][b] == if a == i && b > i then 0 else R[a][b]
  {
    assert AddedFrom(R, R', i, q, i + 1);
    forall a, b | 0 <= a < |R| && 0 <= b < Cols(R)
      ensures R'[a][b] == if a == i && b > i then 0 else R[a][b]
    {
      ClearRowEntry(R, i, q, R', a, b);
    }
  }

  lemma ClearRowEntry(R: Matrix, i: nat, q: seq<int>, R': Matrix, a: nat, b: nat)
    requires ClearedBefore(R, i) && i < Min(|R|, Cols(R)) && |q| == Cols(R)
    requires Rect(R') && |R'| == |R| && Cols(R') == Cols(R) && AddedFrom(R, R', i, q, i + 1)
    requires a < |R| && b < Cols(R) && (b > i ==> q[b] == -Div(R[i][b], R[i][i]))
    ensures R'[a][b] == if a == i && b > i then 0 else R[a][b]
  {
    if b > i {
      assert R'[a][b] == R[a][b] + q[b] * R[a][i];
      if a == i {
        ClearEntry(R[i][b], R[i][i]);
      } else {
        assert R[a][i] == 0;
      }
    }
  }

  /** With row i cleared, rows up to i hold only their diagonal entry and the diagonal is unchanged. */
  lemma ClearRowStep(R: Matrix, i: nat, R': Matrix)
    requires ClearedBefore(R, i) && i < Min(|R|, Cols(R))
    requires Rect(R') && |R'| == |R| && Cols(R') == Cols(R)
    requires forall a, b :: 0 <= a < |R| && 0 <= b < Cols(R) ==>
      R'[a][b] == if a == i && b > i then 0 else R[a][b]
    ensures ClearedBefore(R', i + 1)
    ensures Diagonal(R', Min(|R|, Cols(R))) == Diagonal(R, Min(|R|, Cols(R)))
  {
    var m := Min(|R|, Cols(R));
    assert forall a, b :: 0 <= b < a < |R| && b < Cols(R) ==> R'[a][b] == 0;
    assert forall a, b :: 0 <= a < i + 1 && a < b < Cols(R) ==> R'[a][b] == 0;
    forall a, b | i + 1 <= a < b < Cols(R) && a < |R|
      ensures IsDivisor(R'[a][a], R'[a][b])
    {
      assert R'[a][a] == R[a][a] && R'[a][b] == R[a][b];
    }
    forall a | 0 <= a < m
      ensures Diagonal(R', m)[a] == Diagonal(R, m)[a]
    {
      assert R'[a][a] == R[a][a];
    }
  }

  lemma {:induction false} ClearRows(R: Matrix, i: nat)
    requires ClearedBefore(R, i)
    ensures Equivalent(R, DiagMatrix(|R|, Cols(R), Diagonal(R, Min(|R|, Cols(R)))), Columns)
    decreases Min(|R|, Cols(R)) - i
  {
    var m := Min(|R|, Cols(R));
    if i == m {
      var D := DiagMatrix(|R|, Cols(R), Diagonal(R, m));
      forall a | 0 <= a < |R|
        ensures R[a] == D[a]
      {
        forall b | 0 <= b < Cols(R)
          ensures R[a][b] == D[a][b]
        {}
      }
      EquivalentRefl(R, Columns);
    } else {
      var q := seq(Cols(R), k requires 0 <= k < Cols(R) => -Div(R[i][k], R[i][i]));
      var R' := AddToColumns(R, i, q, i + 1);
      ClearRowEntries(R, i, q, R');
      ClearRowStep(R, i, R');
      ClearRows(R', i + 1);
      EquivalentTrans(R, R', DiagMatrix(|R|, Cols(R), Diagonal(R, m)), Columns);
    }
  }

  /**
   The entries above the diagonal of a reduced matrix are multiples of the
   diagonal entry of their row, so column operations remove them.
   */
  lemma ReducedEquivalent(R: Matrix)
    requires Reduced(R)
    ensures Equivalent(R, DiagMatrix(|R|, Cols(R), Diagonal(R, Min(|R|, Cols(R)))), Columns)
  {
    ClearRows(R, 0);
  }

  // ---------------------------------------------------------------------
  // 2 x 2 blocks of a diagonal matrix
  // ---------------------------------------------------------------------

  /** i < j are diagonal positions of an m x n matrix. */
  predicate Positions(m: nat, n: nat, d: seq<int>, i: nat, j: nat) {
    i < j < |d| && |d| <= m && |d| <= n
  }

  /**
   Entry (r, k) of the diagonal matrix of d whose rows and columns i, j hold
   the block [[a, b], [c, e]] instead.
   */
  function BlockEntry(d: seq<int>, i: nat, j: nat, a: int, b: int, c: int, e: int, r: nat, k: nat): int {
    if r == i && k == i then a
    else if r == i && k == j then b
    else if r == j && k == i then c
    else if r == j && k == j then e
    else if r == k && r < |d| then d[r]
    else 0
  }

  function Block(m: nat, n: nat, d: seq<int>, i: nat, j: nat, a: int, b: int, c: int, e: int): (B: Matrix)
    requires Positions(m, n, d, i, j)
    ensures |B| == m && Rect(B) && Cols(B) == n
    ensures forall r, k :: 0 <= r < m && 0 <= k < n ==> B[r][k] == BlockEntry(d, i, j, a, b, c, e, r, k)
  {
    seq(m, r requires 0 <= r < m => seq(n, k requires 0 <= k < n => BlockEntry(d, i, j, a, b, c, e, r, k)))
  }

  /** Two matrices of the same shape with the same entries are equal. */
  lemma SameEntries(X: Matrix, Y: Matrix)
    requires Rect(X) && Rect(Y) && |X| == |Y| && Cols(X) == Cols(Y)
    requires forall r, k :: 0 <= r < |X| && 0 <= k < Cols(X) ==> X[r][k] == Y[r][k]
    ensures X == Y
  {
    forall r | 0 <= r < |X|
      ensures X[r] == Y[r]
    {}
  }

  /** A block with zeros off the diagonal is the diagonal matrix with d_i := a and d_j := e. */
  lemma BlockDiag(m: nat, n: nat, d: seq<int>, i: nat, j: nat, a: int, e: int)
    requires Positions(m, n, d, i, j)
    ensures Block(m, n, d, i, j, a, 0, 0, e) == DiagMatrix(m, n, d[i := a][j := e])
  {
    SameEntries(Block(m, n, d, i, j, a, 0, 0, e), DiagMatrix(m, n, d[i := a][j := e]));
  }

  /** Column i += x * column j: the new a and c are a' and c'. */
  lemma BlockColIJ(m: nat, n: nat, d: seq<int>, i: nat, j: nat, a: int, b: int, c: int, e: int, x: int, a': int, c': int)
    requires Positions(m, n, d, i, j) && a' == a + x * b && c' == c + x * e
    ensures Equivalent(Block(m, n, d, i, j, a, b, c, e), Block(m, n, d, i, j, a', b, c', e), Columns)
  {
    var B := Block(m, n, d, i, j, a, b, c, e);
    ColumnOperation(B, Axpy(i, x, j));
    SameEntries(ApplyCols(B, Axpy(i, x, j)), Block(m, n, d, i, j, a', b, c', e));
  }

  /** Column j += x * column i: the new b and e are b' and e'. */
  lemma BlockColJI(m: nat, n: nat, d: seq<int>, i: nat, j: nat, a: int, b: int, c: int, e: int, x: int, b': int, e': int)
    requires Positions(m, n, d, i, j) && b' == b + x * a && e' == e + x * c
    ensures Equivalent(Block(m, n, d, i, j, a, b, c, e), Block(m, n, d, i, j, a, b', c, e'), Columns)
  {
    var B := Block(m, n, d, i, j, a, b, c, e);
    ColumnOperation(B, Axpy(j, x, i));
    SameEntries(ApplyCols(B, Axpy(j, x, i)), Block(m, n, d, i, j, a, b', c, e'));
  }

  /** Entry (r, k) after row dst += x * row src. */
  lemma RowAxpyEntry(X: Matrix, dst: nat, x: int, src: nat, r: nat, k: nat)
    requires Rect(X) && dst < |X| && src < |X| && dst != src && r < |X| && k < Cols(X)
    ensures ApplyRows(X, Axpy(dst, x, src))[r][k] == if r == dst then X[dst][k] + x * X[src][k] else X[r][k]
  {}

  /** Row i += x * row j: the new a and b are a' and b'. */
  lemma BlockRowIJ(m: nat, n: nat, d: seq<int>, i: nat, j: nat, a: int, b: int, c: int, e: int, x: int, a': int, b': int)
    requires Positions(m, n, d, i, j) && a' == a + x * c && b' == b + x * e
    ensures Equivalent(Block(m, n, d, i, j, a, b, c, e), Block(m, n, d, i, j, a', b', c, e), Rows)
  {
    var B := Block(m, n, d, i, j, a, b, c, e);
    RowOperation(B, Axpy(i, x, j));
    forall r, k | 0 <= r < m && 0 <= k < n {
      RowAxpyEntry(B, i, x, j, r, k);
    }
    SameEntries(ApplyRows(B, Axpy(i, x, j)), Block(m, n, d, i, j, a', b', c, e));
  }

  /** Row j += x * row i: the new c and e are c' and e'. */
  lemma BlockRowJI(m: nat, n: nat, d: seq<int>, i: nat, j: nat, a: int, b: int, c: int, e: int, x: int, c': int, e': int)
    requires Positions(m, n, d, i, j) && c' == c + x * a && e' == e + x * b
    ensures Equivalent(Block(m, n, d, i, j, a, b, c, e), Block(m, n, d, i, j, a, b, c', e'), Rows)
  {
    var B := Block(m, n, d, i, j, a, b, c, e);
    RowOperation(B, Axpy(j, x, i));
    forall r, k | 0 <= r < m && 0 <= k < n {
      RowAxpyEntry(B, j, x, i, r, k);
    }
    SameEntries(ApplyRows(B, Axpy(j, x, i)), Block(m, n, d, i, j, a, b, c', e'));
  }

  /**
   (column i, column j) := (y1 * column i + y2 * column j, s * column i + t * column j):
   the new block is [[a', b'], [c', e']].
   */
  lemma BlockColMix(m: nat, n: nat, d: seq<int>, i: nat, j: nat, a: int, b: int, c: int, e: int,
                    y1: int, y2: int, s: int, t: int, a': int, b': int, c': int, e': int)
    requires Positions(m, n, d, i, j) && y1 * t - y2 * s == -1
    requires a' == y1 * a + y2 * b && b' == s * a + t * b && c' == y1 * c + y2 * e && e' == s * c + t * e
    ensures Equivalent(Block(m, n, d, i, j, a, b, c, e), Block(m, n, d, i, j, a', b', c', e'), Columns)
  {
    var B := Block(m, n, d, i, j, a, b, c, e);
    ColumnOperation(B, Mix(i, j, y1, y2, s, t));
    forall r | 0 <= r < m {
      MixEntries(i, j, y1, y2, s, t, B[r]);
    }
    SameEntries(ApplyCols(B, Mix(i, j, y1, y2, s, t)), Block(m, n, d, i, j, a', b', c', e'));
  }

  /** Column j := column j * u for a unit u: the new b and e are b' and e'. */
  lemma BlockColScale(m: nat, n: nat, d: seq<int>, i: nat, j: nat, a: int, b: int, c: int, e: int, u: int, b': int, e': int)
    requires Positions(m, n, d, i, j) && IsUnit(u) && b' == b * u && e' == e * u
    ensures Equivalent(Block(m, n, d, i, j, a, b, c, e), Block(m, n, d, i, j, a, b', c, e'), Columns)
  {
    var B := Block(m, n, d, i, j, a, b, c, e);
    ColumnOperation(B, Scale(j, u));
    SameEntries(ApplyCols(B, Scale(j, u)), Block(m, n, d, i, j, a, b', c, e'));
  }

  // ---------------------------------------------------------------------
  // The steps of the normalisation loop
  // ---------------------------------------------------------------------

  /** Exchanging a zero d_i with d_j: two column and two row additions. */
  lemma SwapEquivalent(m: nat, n: nat, d: seq<int>, i: nat, j: nat)
    requires Positions(m, n, d, i, j) && d[i] == 0
    ensures Equivalent(DiagMatrix(m, n, d), DiagMatrix(m, n, d[i := d[j]][j := d[i]]), Both)
  {
    var b := d[j];
    BlockDiag(m, n, d, i, j, 0, b);
    assert d[i := 0][j := b] == d;
    SwapColumns(m, n, d, i, j, b);
    SwapRows(m, n, d, i, j, b);
    EquivalentChain(Block(m, n, d, i, j, 0, 0, 0, b), Block(m, n, d, i, j, 0, 0, b, 0),
                    Block(m, n, d, i, j, b, 0, 0, 0), Columns, Rows);
    BlockDiag(m, n, d, i, j, b, 0);
  }

  /** [[0, 0], [0, b]] to [[0, 0], [b, 0]] by column i += column j, then column j -= column i. */
  lemma SwapColumns(m: nat, n: nat, d: seq<int>, i: nat, j: nat, b: int)
    requires Positions(m, n, d, i, j)
    ensures Equivalent(Block(m, n, d, i, j, 0, 0, 0, b), Block(m, n, d, i, j, 0, 0, b, 0), Columns)
  {
    var B0, B1, B2 := Block(m, n, d, i, j, 0, 0, 0, b), Block(m, n, d, i, j, 0, 0, b, b), Block(m, n, d, i, j, 0, 0, b, 0);
    BlockColIJ(m, n, d, i, j, 0, 0, 0, b, 1, 0, b);
    BlockColJI(m, n, d, i, j, 0, 0, b, b, -1, 0, 0);
    EquivalentTrans(B0, B1, B2, Columns);
  }

  /** [[0, 0], [b, 0]] to [[b, 0], [0, 0]] by row i += row j, then row j -= row i. */
  lemma SwapRows(m: nat, n: nat, d: seq<int>, i: nat, j: nat, b: int)
    requires Positions(m, n, d, i, j)
    ensures Equivalent(Block(m, n, d, i, j, 0, 0, b, 0), Block(m, n, d, i, j, b, 0, 0, 0), Rows)
  {
    var B0, B1, B2 := Block(m, n, d, i, j, 0, 0, b, 0), Block(m, n, d, i, j, b, 0, b, 0), Block(m, n, d, i, j, b, 0, 0, 0);
    BlockRowIJ(m, n, d, i, j, 0, 0, b, 0, 1, b, 0);
    BlockRowJI(m, n, d, i, j, b, 0, b, 0, -1, 0, 0);
    EquivalentTrans(B0, B1, B2, Rows);
  }

  /** The integer facts behind the gcd step, with g = s * b + t * a the gcd of b and a. */
  lemma GcdStepArith(a: int, b: int, g: int, s: int, t: int)
    requires a != 0 && b != 0 && g == s * b + t * a
    requires IsDivisor(g, a) && IsDivisor(g, b)
    ensures g != 0
    ensures t * (-Div(a, g)) - s * Div(b, g) == -1
    ensures t * a + s * b == g
    ensures Div(b, g) * a + (-Div(a, g)) * b == 0
    ensures -((-Div(a, g)) * b) == Div(b, g) * a
  {
    var qa, qb := Div(a, g), Div(b, g);
    assert qa * g == a && qb * g == b;
    var det := t * (-qa) - s * qb;
    assert det * g == -(t * (qa * g)) - s * (qb * g);
    assert (det + 1) * g == 0;
    assert qb * a == qb * qa * g == qa * b;
    assert -((-qa) * b) == qa * b;
  }

  /** Row j -= (c / g) * row i clears c under the pivot g; then column j changes sign. */
  lemma BlockClearBelow(m: nat, n: nat, d: seq<int>, i: nat, j: nat, g: int, c: int, e: int)
    requires Positions(m, n, d, i, j) && IsDivisor(g, c)
    ensures Equivalent(Block(m, n, d, i, j, g, 0, c, e), Block(m, n, d, i, j, g, 0, 0, -e), Both)
  {
    var x := -Div(c, g);
    var B0, B1, B2 := Block(m, n, d, i, j, g, 0, c, e), Block(m, n, d, i, j, g, 0, 0, e), Block(m, n, d, i, j, g, 0, 0, -e);
    ClearEntry(c, g);
    BlockRowJI(m, n, d, i, j, g, 0, c, e, x, 0, e);
    BlockColScale(m, n, d, i, j, g, 0, 0, e, -1, 0, -e);
    EquivalentChain(B0, B1, B2, Rows, Columns);
  }

  /**
   Row i += row j, then (column i, column j) := (t * column i + s * column j,
   qb * column i - qa * column j), where t * a + s * b == g and a = qa * g,
   b = qb * g: the block [[a, 0], [0, b]] becomes [[g, 0], [s * b, -qa * b]].
   */
  lemma BlockGcd(m: nat, n: nat, d: seq<int>, i: nat, j: nat, a: int, b: int, g: int, s: int, t: int, qa: int, qb: int)
    requires Positions(m, n, d, i, j)
    requires t * a + s * b == g && qb * a + (-qa) * b == 0 && t * (-qa) - s * qb == -1
    ensures Equivalent(Block(m, n, d, i, j, a, 0, 0, b), Block(m, n, d, i, j, g, 0, s * b, (-qa) * b), Both)
  {
    BlockRowIJ(m, n, d, i, j, a, 0, 0, b, 1, a, b);
    var B1 := Block(m, n, d, i, j, a, b, 0, b);
    BlockColMix(m, n, d, i, j, a, b, 0, b, t, s, qb, -qa, g, 0, s * b, (-qa) * b);
    EquivalentChain(Block(m, n, d, i, j, a, 0, 0, b), B1, Block(m, n, d, i, j, g, 0, s * b, (-qa) * b), Rows, Columns);
  }

  /**
   Replacing nonzero d_i, d_j by (g, (d_j / g) * d_i) with g = gcd(d_j, d_i):
   a row addition, a determinant -1 column combination built from the Bezout
   coefficients, a row addition and a column sign change.
   */
  lemma GcdEquivalent(m: nat, n: nat, d: seq<int>, i: nat, j: nat)
    requires Positions(m, n, d, i, j) && d[i] != 0 && d[j] != 0
    ensures var g := Gcd(d[j], d[i]);
      Equivalent(DiagMatrix(m, n, d), DiagMatrix(m, n, d[j := Div(d[j], g) * d[i]][i := g]), Both)
  {
    var A, B := d[i], d[j];
    var (g, s, t) := XGcd(B, A);
    assert g == Gcd(B, A);
    GcdStepArith(A, B, g, s, t);
    var qa, qb := Div(A, g), Div(B, g);
    BlockDiag(m, n, d, i, j, A, B);
    assert d[i := A][j := B] == d;
    BlockGcd(m, n, d, i, j, A, B, g, s, t, qa, qb);
    DivisorMul(g, B, s);
    BlockClearBelow(m, n, d, i, j, g, s * B, (-qa) * B);
    EquivalentTrans(Block(m, n, d, i, j, A, 0, 0, B), Block(m, n, d, i, j, g, 0, s * B, (-qa) * B),
                    Block(m, n, d, i, j, g, 0, 0, -((-qa) * B)), Both);
    BlockDiag(m, n, d, i, j, g, qb * A);
    assert d[i := g][j := qb * A] == d[j := qb * A][i := g];
  }

  /** Changing the sign of d_i: column i times -1. */
  lemma NegateEquivalent(m: nat, n: nat, d: seq<int>, i: nat)
    requires i < |d| <= m && |d| <= n
    ensures Equivalent(DiagMatrix(m, n, d), DiagMatrix(m, n, d[i := -d[i]]), Columns)
  {
    var D := DiagMatrix(m, n, d);
    ColumnOperation(D, Scale(i, -1));
    SameEntries(ApplyCols(D, Scale(i, -1)), DiagMatrix(m, n, d[i := -d[i]]));
  }
}
