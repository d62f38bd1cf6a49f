/**
 SmithFormIliopoulos::diagonalizationIn: alternate eliminationRow and
 eliminationCol until check accepts the first row, then recurse on the
 submatrix without the first row and column.
 */
module Diagonalization {
  import opened Ints
  import opened Matrices
  import opened Elimination
  import opened Equivalence
  import opened Outcomes

  /** Every row's divisors agree along columns, so do the divisors of all entries. */
  lemma ColDivisorsToEntries(A: Matrix, B: Matrix)
    requires SameColDivisors(A, B) && |A| == |B|
    ensures SameEntryDivisors(A, B)
  {
    var TA, TB := Transpose(A), Transpose(B);
    forall j, d | 0 <= j < |TA|
      ensures CommonDivisor(d, TA[j]) <==> CommonDivisor(d, TB[j])
    {
      assert TA[j] == Col(A, j) && TB[j] == Col(B, j);
    }
    RowDivisorsToEntries(TA, TB);
    TransposeEntryDivisors(A);
    TransposeEntryDivisors(B);
  }

  /** One execution of the do/while body at lines 412-416. */
  function Pass(A: Matrix): (P: Matrix)
    requires Rect(A) && |A| >= 1 && Cols(A) >= 1
    ensures Rect(P) && |P| == |A| && Cols(P) == Cols(A)
    ensures forall i :: 1 <= i < |P| ==> P[i][0] == 0
    ensures SameEntryDivisors(A, P)
    ensures Equivalent(A, P, Both)
    ensures P[0][0] == 0 ==> ZeroRow(P[0])
  {
    var R := EliminationRow(A);
    PassFacts(A, R);
    EquivalentChain(A, R, EliminationCol(R), Columns, Rows);
    EliminationCol(R)
  }

  lemma PassFacts(A: Matrix, R: Matrix)
    requires Rect(A) && |A| >= 1 && Cols(A) >= 1 && R == EliminationRow(A)
    ensures SameEntryDivisors(A, EliminationCol(R))
    ensures EliminationCol(R)[0][0] == 0 ==> ZeroRow(EliminationCol(R)[0])
  {
    var C := EliminationCol(R);
    RowDivisorsToEntries(A, R);
    ColDivisorsToEntries(R, C);
    if C[0][0] == 0 && |A| >= 2 {
      ZeroPivotColumn(R);
      assert C == R;
    }
  }

  /**
   If eliminationCol leaves a zero pivot, the column was zero already: every
   integer divides the new column, hence the old one.
   */
  lemma ZeroPivotColumn(R: Matrix)
    requires Rect(R) && |R| >= 2 && Cols(R) >= 1 && EliminationCol(R)[0][0] == 0
    ensures ZeroRow(Col(R, 0))
  {
    var C := EliminationCol(R);
    ZeroColumnKept(Col(R, 0), Col(C, 0));
  }

  /** A column with the same common divisors as a zero column is zero. */
  lemma ZeroColumnKept(u: seq<int>, v: seq<int>)
    requires ZeroRow(v) && forall d :: CommonDivisor(d, u) <==> CommonDivisor(d, v)
    ensures ZeroRow(u)
  {
    forall i | 0 <= i < |u|
      ensures u[i] == 0
    {
      var d := NormalIn(u[i]) + 1;
      forall k | 0 <= k < |v|
        ensures IsDivisor(d, v[k])
      {
        DivisorSelf(d);
      }
      assert CommonDivisor(d, v);
      assert IsDivisor(d, u[i]);
      DividedByAllIsZero(u[i]);
    }
  }

  /** A pass over a matrix whose pivot is a unit leaves the first row (u, 0, ..., 0) with u a unit. */
  lemma UnitPivotPass(A: Matrix)
    requires Rect(A) && |A| >= 1 && Cols(A) >= 1 && IsUnit(A[0][0])
    ensures IsUnit(Pass(A)[0][0])
    ensures forall k :: 1 <= k < Cols(A) ==> Pass(A)[0][k] == 0
  {
    var R := EliminationRow(A);
    var C := EliminationCol(R);
    assert IsUnit(R[0][0]);
    if |A| >= 2 {
      forall k | 1 <= k < Cols(A)
        ensures C[0][k] == 0
      {
        assert C[0][k] == R[0][k] * Inv(R[0][0]);
      }
    }
  }

  /**
   Lines 412-418: the do/while, repeating the pass until check accepts.
   The loop is not known to stop for every ring, so the number of further
   passes is bounded by fuel and running out yields None.
   */
  function Converge(A: Matrix, fuel: nat): (r: Option<Matrix>)
    requires Rect(A) && |A| >= 1 && Cols(A) >= 1
    ensures r.Some? ==> Rect(r.value) && |r.value| == |A| && Cols(r.value) == Cols(A)
    ensures r.Some? ==> Check(r.value)
    ensures r.Some? ==> forall i :: 1 <= i < |A| ==> r.value[i][0] == 0
    ensures r.Some? ==> forall k :: 0 <= k < Cols(A) ==> IsDivisor(r.value[0][0], r.value[0][k])
    ensures r.Some? ==> SameEntryDivisors(A, r.value)
    ensures r.Some? ==> Equivalent(A, r.value, Both)
    decreases fuel
  {
    var P := Pass(A);
    if Check(P) then
      ConvergedRow(P);
      Some(P)
    else if fuel == 0 then None
    else
      var r := Converge(P, fuel - 1);
      if r.Some? then EquivalentTrans(A, P, r.value, Both); r else r
  }

  /** When check accepts, the pivot divides its whole row. */
  lemma ConvergedRow(P: Matrix)
    requires Rect(P) && |P| >= 1 && Cols(P) >= 1 && Check(P)
    requires P[0][0] == 0 ==> ZeroRow(P[0])
    ensures forall k :: 0 <= k < Cols(P) ==> IsDivisor(P[0][0], P[0][k])
  {
    DivisorSelf(P[0][0]);
  }

  /** A unit pivot is accepted after the first pass, with no further fuel. */
  lemma UnitPivotConverges(A: Matrix)
    requires Rect(A) && |A| >= 1 && Cols(A) >= 1 && IsUnit(A[0][0])
    ensures Converge(A, 0).Some?
  {
    UnitPivotPass(A);
    var P := Pass(A);
    assert Check(P) by {
      forall k | 1 <= k < Cols(P)
        ensures IsDivisor(P[0][0], P[0][k])
      {
        DivisorSelf(P[0][0]);
      }
    }
  }

  /** The submatrix view sub(A, 1, 1, rowdim - 1, coldim - 1) of lines 422-424. */
  function Sub(A: Matrix): (S: Matrix)
    requires Rect(A) && |A| >= 1 && Cols(A) >= 1
    ensures |S| == |A| - 1 && Rect(S)
    ensures forall i :: 0 <= i < |S| ==> |S[i]| == Cols(A) - 1
    ensures forall i, j :: 0 <= i < |S| && 0 <= j < |S[i]| ==> S[i][j] == A[i + 1][j + 1]
  {
    seq(|A| - 1, i requires 0 <= i < |A| - 1 => A[i + 1][1..])
  }

  /** Writing the submatrix back into A, which is what updating through the view does. */
  function Embed(A: Matrix, S: Matrix): (B: Matrix)
    requires Rect(A) && |A| >= 1 && Cols(A) >= 1
    requires |S| == |A| - 1 && forall i :: 0 <= i < |S| ==> |S[i]| == Cols(A) - 1
    ensures Rect(B) && |B| == |A| && Cols(B) == Cols(A)
    ensures B[0] == A[0]
    ensures forall i :: 0 <= i < |B| ==> B[i][0] == A[i][0]
    ensures forall i, j :: 1 <= i < |B| && 1 <= j < |B[i]| ==> B[i][j] == S[i - 1][j - 1]
  {
    seq(|A|, i requires 0 <= i < |A| => if i == 0 then A[0] else [A[i][0]] + S[i - 1])
  }

  /** The view and the write-back are inverse to each other. */
  lemma EmbedSub(A: Matrix)
    requires Rect(A) && |A| >= 1 && Cols(A) >= 1
    ensures Embed(A, Sub(A)) == A
  {
    var B := Embed(A, Sub(A));
    forall i | 0 <= i < |A|
      ensures B[i] == A[i]
    {
      if i > 0 {
        assert B[i] == [A[i][0]] + Sub(A)[i - 1];
        assert Sub(A)[i - 1] == A[i][1..];
      }
    }
  }

  lemma SubEmbed(A: Matrix, S: Matrix)
    requires Rect(A) && |A| >= 1 && Cols(A) >= 1
    requires |S| == |A| - 1 && forall i :: 0 <= i < |S| ==> |S[i]| == Cols(A) - 1
    ensures Sub(Embed(A, S)) == S
  {
    var B := Embed(A, S);
    forall i | 0 <= i < |S|
      ensures Sub(B)[i] == S[i]
    {
      assert B[i + 1] == [A[i + 1][0]] + S[i];
    }
  }

  /**
   The shape diagonalizationIn produces: zero below the diagonal, and every
   diagonal entry divides the rest of its row.
   */
  predicate Reduced(B: Matrix) {
    Rect(B) &&
    (forall i, j :: 0 <= j < i < |B| && j < Cols(B) ==> B[i][j] == 0) &&
    (forall i, j :: 0 <= i < j < Cols(B) && i < |B| ==> IsDivisor(B[i][i], B[i][j]))
  }

  /**
   diagonalizationIn. Empty matrices are returned as they are; otherwise the
   first row and column are settled by Converge and the rest is done on the
   submatrix. None means some do/while ran out of fuel.
   */
  function DiagonalizationIn(A: Matrix, fuel: nat): (r: Option<Matrix>)
    requires Rect(A)
    ensures |A| == 0 || Cols(A) == 0 ==> r == Some(A)
    ensures r.Some? ==> |r.value| == |A| && Cols(r.value) == Cols(A)
    ensures r.Some? ==> Reduced(r.value)
    ensures r.Some? ==> SameEntryDivisors(A, r.value)
    ensures r.Some? ==> Equivalent(A, r.value, Both)
    decreases |A|
  {
    if |A| == 0 || Cols(A) == 0 then
      EquivalentRefl(A, Both);
      Some(A)
    else match Converge(A, fuel)
      case None => None
      case Some(A1) =>
        match DiagonalizationIn(Sub(A1), fuel)
        case None => None
        case Some(S) =>
          EmbedReduced(A1, S);
          EmbedDivisors(A1, S);
          EmbedEquivalent(A1, S);
          EquivalentTrans(A, A1, Embed(A1, S), Both);
          Some(Embed(A1, S))
  }

  lemma EmbedReduced(A: Matrix, S: Matrix)
    requires Rect(A) && |A| >= 1 && Cols(A) >= 1
    requires forall i :: 1 <= i < |A| ==> A[i][0] == 0
    requires forall k :: 0 <= k < Cols(A) ==> IsDivisor(A[0][0], A[0][k])
    requires |S| == |A| - 1 && (|S| > 0 ==> Cols(S) == Cols(A) - 1) && Reduced(S)
    ensures forall i :: 0 <= i < |S| ==> |S[i]| == Cols(A) - 1
    ensures Reduced(Embed(A, S))
  {
    var B := Embed(A, S);
    forall i, j | 0 <= j < i < |B| && j < Cols(B)
      ensures B[i][j] == 0
    {
      if j > 0 {
        assert B[i][j] == S[i - 1][j - 1];
      }
    }
    forall i, j | 0 <= i < j < Cols(B) && i < |B|
      ensures IsDivisor(B[i][i], B[i][j])
    {
      if i > 0 {
        assert B[i][i] == S[i - 1][i - 1] && B[i][j] == S[i - 1][j - 1];
      }
    }
  }

  lemma EmbedDivisors(A: Matrix, S: Matrix)
    requires Rect(A) && |A| >= 1 && Cols(A) >= 1
    requires |S| == |A| - 1 && forall i :: 0 <= i < |S| ==> |S[i]| == Cols(A) - 1
    requires SameEntryDivisors(Sub(A), S)
    ensures SameEntryDivisors(A, Embed(A, S))
  {
    var B := Embed(A, S);
    forall d
      ensures AllDivisible(d, A) <==> AllDivisible(d, B)
    {
      if AllDivisible(d, A) {
        assert AllDivisible(d, Sub(A));
        forall i, j | 1 <= i < |B| && 1 <= j < |B[i]|
          ensures IsDivisor(d, B[i][j])
        {
          assert B[i][j] == S[i - 1][j - 1];
        }
      }
      if AllDivisible(d, B) {
        forall i, j | 0 <= i < |S| && 0 <= j < |S[i]|
          ensures IsDivisor(d, S[i][j])
        {
          assert S[i][j] == B[i + 1][j + 1];
          assert CommonDivisor(d, B[i + 1]);
        }
        assert AllDivisible(d, S);
        assert AllDivisible(d, Sub(A));
        forall i, j | 1 <= i < |A| && 1 <= j < |A[i]|
          ensures IsDivisor(d, A[i][j])
        {
          assert A[i][j] == Sub(A)[i - 1][j - 1];
        }
      }
    }
  }

  // ---------------------------------------------------------------------
  // Equivalence through the submatrix view (lines 422-426)
  // ---------------------------------------------------------------------

  /**
   B is A with column k += q[k] * column c for every k from j on; the other
   columns are as in A.
   */
  predicate AddedFrom(A: Matrix, B: Matrix, c: nat, q: seq<int>, j: nat)
    requires Rect(A) && Rect(B) && |B| == |A| && Cols(B) == Cols(A) && c < Cols(A) && |q| == Cols(A)
  {
    forall i, k {:trigger B[i][k]} :: 0 <= i < |A| && 0 <= k < Cols(A) ==>
      B[i][k] == if k < j then A[i][k] else A[i][k] + q[k] * A[i][c]
  }

  /**
   Column k += q[k] * column c for every k from j on, where c < j: the
   axpy of the final pass, done for a whole range of columns at once.
   */
  function AddToColumns(A: Matrix, c: nat, q: seq<int>, j: nat): (B: Matrix)
    requires Rect(A) && c < j <= Cols(A) && |q| == Cols(A)
    ensures Rect(B) && |B| == |A| && Cols(B) == Cols(A)
    ensures Equivalent(A, B, Columns)
    ensures AddedFrom(A, B, c, q, j)
    decreases Cols(A) - j
  {
    if j == Cols(A) then
      EquivalentRefl(A, Columns);
      A
    else
      var A' := ApplyCols(A, Axpy(j, q[j], c));
      ColumnOperation(A, Axpy(j, q[j], c));
      var B := AddToColumns(A', c, q, j + 1);
      EquivalentTrans(A, A', B, Columns);
      AddToColumnsStep(A, c, q, j, A', B);
      B
  }

  lemma AddToColumnsStep(A: Matrix, c: nat, q: seq<int>, j: nat, A': Matrix, B: Matrix)
    requires Rect(A) && c < j < Cols(A) && |q| == Cols(A)
    requires A' == ApplyCols(A, Axpy(j, q[j], c))
    requires Rect(A') && |A'| == |A| && Cols(A') == Cols(A)
    requires Rect(B) && |B| == |A| && Cols(B) == Cols(A)
    requires AddedFrom(A', B, c, q, j + 1)
    ensures AddedFrom(A, B, c, q, j)
  {
    forall i, k | 0 <= i < |A| && 0 <= k < Cols(A)
      ensures B[i][k] == if k < j then A[i][k] else A[i][k] + q[k] * A[i][c]
    {
      assert A'[i] == A[i][j := A[i][j] + q[j] * A[i][c]];
      assert B[i][k] == if k < j + 1 then A'[i][k] else A'[i][k] + q[k] * A'[i][c];
      assert A'[i][c] == A[i][c];
      if k == j {
        assert B[i][k] == A[i][j] + q[j] * A[i][c];
      } else {
        assert A'[i][k] == A[i][k];
      }
    }
  }

  /** The first row and the first column are zero apart from the pivot: A = [[p, 0], [0, A']]. */
  predicate PivotBlock(D: Matrix) {
    Rect(D) && |D| >= 1 && Cols(D) >= 1 &&
    (forall k :: 1 <= k < Cols(D) ==> D[0][k] == 0) &&
    (forall i :: 1 <= i < |D| ==> D[i][0] == 0)
  }

  /** A step on the submatrix as a step on the whole matrix. */
  function LiftStep(s: Step): Step {
    match s
    case ColStep(op) => ColStep(Shift(op))
    case RowStep(op) => RowStep(Shift(op))
  }

  function Lift(steps: seq<Step>): (r: seq<Step>)
    ensures |r| == |steps|
    ensures forall k :: 0 <= k < |r| ==> r[k] == LiftStep(steps[k])
  {
    seq(|steps|, k requires 0 <= k < |steps| => LiftStep(steps[k]))
  }

  /** An elementary operation leaves a zero row zero. */
  lemma ApplyRowZero(op: ColOp, row: seq<int>)
    requires ZeroRow(row)
    ensures ApplyRow(op, row) == row
  {
    match op
    case DotInto(c, v) =>
      if c < |row| && |v| == |row| {
        DotZero(v, row);
      }
    case _ =>
  }

  /** Two matrices of the same shape with the same columns are equal. */
  lemma ColumnsDetermine(A: Matrix, B: Matrix)
    requires Rect(A) && Rect(B) && |A| == |B| && Cols(A) == Cols(B)
    requires forall j :: 0 <= j < Cols(A) ==> Col(A, j) == Col(B, j)
    ensures A == B
  {
    forall i | 0 <= i < |A|
      ensures A[i] == B[i]
    {
      forall j | 0 <= j < Cols(A)
        ensures A[i][j] == B[i][j]
      {
        assert A[i][j] == Col(A, j)[i] && B[i][j] == Col(B, j)[i];
      }
    }
  }

  /** On [[p, 0], [0, Y]] the shifted step acts on Y alone. */
  lemma LiftOne(D: Matrix, Y: Matrix, s: Step, side: Side)
    requires PivotBlock(D) && |D| >= 2 && Cols(D) >= 2
    requires Rect(Y) && |Y| == |D| - 1 && Cols(Y) == Cols(D) - 1
    requires Fits(s, |Y|, Cols(Y), side)
    ensures Fits(LiftStep(s), |D|, Cols(D), side)
    ensures ApplyStep(Embed(D, Y), LiftStep(s)) == Embed(D, ApplyStep(Y, s))
  {
    match s
    case ColStep(op) =>
      ShiftRow(op, 0, seq(Cols(Y), _ => 0));
      LiftColumnOperation(D, Y, op);
    case RowStep(op) =>
      ShiftRow(op, 0, seq(|Y|, _ => 0));
      LiftRowOperation(D, Y, op);
  }

  lemma LiftColumnOperation(D: Matrix, Y: Matrix, op: ColOp)
    requires PivotBlock(D) && |D| >= 2 && Cols(D) >= 2
    requires Rect(Y) && |Y| == |D| - 1 && Cols(Y) == Cols(D) - 1
    requires Invertible(op, Cols(Y))
    ensures ApplyCols(Embed(D, Y), Shift(op)) == Embed(D, ApplyCols(Y, op))
  {
    var F := Embed(D, ApplyCols(Y, op));
    var L := ApplyCols(Embed(D, Y), Shift(op));
    forall i | 0 <= i < |D|
      ensures L[i] == F[i]
    {
      LiftColumnRow(D, Y, op, i);
    }
  }

  /** Row i of a pivot block under the shifted column operation. */
  lemma LiftColumnRow(D: Matrix, Y: Matrix, op: ColOp, i: nat)
    requires PivotBlock(D) && |D| >= 2 && Cols(D) >= 2
    requires Rect(Y) && |Y| == |D| - 1 && Cols(Y) == Cols(D) - 1
    requires Invertible(op, Cols(Y)) && i < |D|
    ensures ApplyRow(Shift(op), Embed(D, Y)[i]) == Embed(D, ApplyCols(Y, op))[i]
  {
    if i == 0 {
      assert Embed(D, Y)[0] == [D[0][0]] + D[0][1..];
      ShiftRow(op, D[0][0], D[0][1..]);
      ApplyRowZero(op, D[0][1..]);
    } else {
      assert Embed(D, Y)[i] == [D[i][0]] + Y[i - 1];
      ShiftRow(op, D[i][0], Y[i - 1]);
    }
  }

  lemma LiftRowOperation(D: Matrix, Y: Matrix, op: ColOp)
    requires PivotBlock(D) && |D| >= 2 && Cols(D) >= 2
    requires Rect(Y) && |Y| == |D| - 1 && Cols(Y) == Cols(D) - 1
    requires Invertible(op, |Y|)
    ensures ApplyRows(Embed(D, Y), Shift(op)) == Embed(D, ApplyRows(Y, op))
  {
    var F := Embed(D, ApplyRows(Y, op));
    var L := ApplyRows(Embed(D, Y), Shift(op));
    forall j | 0 <= j < Cols(D)
      ensures Col(L, j) == Col(F, j)
    {
      if j == 0 {
        LiftRowPivotColumn(D, Y, op);
      } else {
        LiftRowColumn(D, Y, op, j);
      }
    }
    ColumnsDetermine(L, F);
  }

  lemma LiftRowPivotColumn(D: Matrix, Y: Matrix, op: ColOp)
    requires PivotBlock(D) && |D| >= 2 && Cols(D) >= 2
    requires Rect(Y) && |Y| == |D| - 1 && Cols(Y) == Cols(D) - 1
    requires Invertible(op, |Y|)
    ensures Col(ApplyRows(Embed(D, Y), Shift(op)), 0) == Col(Embed(D, ApplyRows(Y, op)), 0)
  {
    var z := seq(|Y|, _ => 0);
    EmbedPivotColumn(D, Y);
    EmbedPivotColumn(D, ApplyRows(Y, op));
    ShiftedPivotColumn(Embed(D, Y), op, D[0][0], z);
  }

  /** Column 0 of a pivot block is the pivot followed by zeros, whatever Y is. */
  lemma EmbedPivotColumn(D: Matrix, Y: Matrix)
    requires PivotBlock(D) && |D| >= 2 && Cols(D) >= 2
    requires Rect(Y) && |Y| == |D| - 1 && Cols(Y) == Cols(D) - 1
    ensures Col(Embed(D, Y), 0) == [D[0][0]] + seq(|Y|, _ => 0)
  {
    var E := Embed(D, Y);
    forall i | 0 <= i < |D|
      ensures Col(E, 0)[i] == ([D[0][0]] + seq(|Y|, _ => 0))[i]
    {}
  }

  /** A shifted row operation leaves a column (p, 0, ..., 0) as it is. */
  lemma ShiftedPivotColumn(E: Matrix, op: ColOp, p: int, z: seq<int>)
    requires Rect(E) && Cols(E) >= 1 && Col(E, 0) == [p] + z && Invertible(op, |z|)
    requires ZeroRow(z)
    ensures Col(ApplyRows(E, Shift(op)), 0) == [p] + z
  {
    ColOfApplyRows(E, Shift(op), 0);
    ShiftRow(op, p, z);
    ApplyRowZero(op, z);
  }

  lemma LiftRowColumn(D: Matrix, Y: Matrix, op: ColOp, j: nat)
    requires PivotBlock(D) && |D| >= 2 && Cols(D) >= 2
    requires Rect(Y) && |Y| == |D| - 1 && Cols(Y) == Cols(D) - 1
    requires Invertible(op, |Y|) && 1 <= j < Cols(D)
    ensures Col(ApplyRows(Embed(D, Y), Shift(op)), j) == Col(Embed(D, ApplyRows(Y, op)), j)
  {
    EmbedColumn(D, Y, j);
    ShiftedColumn(Embed(D, Y), op, Col(Y, j - 1), j);
    EmbedRowsColumn(D, Y, op, j);
  }

  /** A column that starts with 0 keeps that 0 under a shifted row operation. */
  lemma ShiftedColumn(E: Matrix, op: ColOp, c: seq<int>, j: nat)
    requires Rect(E) && j < Cols(E) && Col(E, j) == [0] + c && Invertible(op, |c|)
    ensures Col(ApplyRows(E, Shift(op)), j) == [0] + ApplyRow(op, c)
  {
    ColOfApplyRows(E, Shift(op), j);
    ShiftRow(op, 0, c);
  }

  /** Column j >= 1 after the row operation on Y is 0 followed by the transformed column of Y. */
  lemma EmbedRowsColumn(D: Matrix, Y: Matrix, op: ColOp, j: nat)
    requires PivotBlock(D) && |D| >= 2 && Cols(D) >= 2
    requires Rect(Y) && |Y| == |D| - 1 && Cols(Y) == Cols(D) - 1 && 1 <= j < Cols(D)
    ensures Col(Embed(D, ApplyRows(Y, op)), j) == [0] + ApplyRow(op, Col(Y, j - 1))
  {
    var Y' := ApplyRows(Y, op);
    assert Col(Y', j - 1) == ApplyRow(op, Col(Y, j - 1)) by { ColOfApplyRows(Y, op, j - 1); }
    assert Col(Embed(D, Y'), j) == [0] + Col(Y', j - 1) by { EmbedColumn(D, Y', j); }
  }

  /** Column j >= 1 of a pivot block with Y written in is 0 followed by column j - 1 of Y. */
  lemma EmbedColumn(D: Matrix, Y: Matrix, j: nat)
    requires PivotBlock(D) && |D| >= 2 && Cols(D) >= 2
    requires Rect(Y) && |Y| == |D| - 1 && Cols(Y) == Cols(D) - 1 && 1 <= j < Cols(D)
    ensures Col(Embed(D, Y), j) == [0] + Col(Y, j - 1)
  {
    var E := Embed(D, Y);
    forall i | 0 <= i < |D|
      ensures Col(E, j)[i] == ([0] + Col(Y, j - 1))[i]
    {}
  }

  lemma {:induction false} LiftRun(D: Matrix, Y: Matrix, steps: seq<Step>, side: Side)
    requires PivotBlock(D) && |D| >= 2 && Cols(D) >= 2
    requires Rect(Y) && |Y| == |D| - 1 && Cols(Y) == Cols(D) - 1
    requires AllFit(steps, |Y|, Cols(Y), side)
    ensures AllFit(Lift(steps), |D|, Cols(D), side)
    ensures Run(Embed(D, Y), Lift(steps)) == Embed(D, Run(Y, steps))
    decreases |steps|
  {
    if |steps| > 0 {
      LiftOne(D, Y, steps[0], side);
      var Y1 := ApplyStep(Y, steps[0]);
      assert Lift(steps)[1..] == Lift(steps[1..]);
      assert AllFit(steps[1..], |Y1|, Cols(Y1), side);
      LiftRun(D, Y1, steps[1..], side);
      forall k | 0 <= k < |steps|
        ensures Fits(Lift(steps)[k], |D|, Cols(D), side)
      {
        if k > 0 {
          assert Lift(steps)[k] == Lift(steps[1..])[k - 1];
        }
      }
    }
  }

  /**
   Lines 422-426 preserve equivalence: the pivot clears the rest of the
   first row (it divides it), the submatrix steps act on [[p, 0], [0, A']]
   as shifted steps, and the first row is put back.
   */
  lemma EmbedEquivalent(A1: Matrix, S: Matrix)
    requires Rect(A1) && |A1| >= 1 && Cols(A1) >= 1
    requires forall i :: 1 <= i < |A1| ==> A1[i][0] == 0
    requires forall k :: 0 <= k < Cols(A1) ==> IsDivisor(A1[0][0], A1[0][k])
    requires Equivalent(Sub(A1), S, Both)
    ensures forall i :: 0 <= i < |S| ==> |S[i]| == Cols(A1) - 1
    ensures Equivalent(A1, Embed(A1, S), Both)
  {
    EquivalentShape(Sub(A1), S, Both);
    if |A1| == 1 || Cols(A1) == 1 {
      forall i | 0 <= i < |S|
        ensures S[i] == Sub(A1)[i]
      {}
      assert S == Sub(A1);
      EmbedSub(A1);
      EquivalentRefl(A1, Both);
    } else {
      ClearedEquivalent(A1, S);
    }
  }

  lemma ClearedEquivalent(A1: Matrix, S: Matrix)
    requires Rect(A1) && |A1| >= 2 && Cols(A1) >= 2
    requires forall i :: 1 <= i < |A1| ==> A1[i][0] == 0
    requires forall k :: 0 <= k < Cols(A1) ==> IsDivisor(A1[0][0], A1[0][k])
    requires Equivalent(Sub(A1), S, Both)
    requires Rect(S) && |S| == |A1| - 1 && Cols(S) == Cols(A1) - 1
    ensures Equivalent(A1, Embed(A1, S), Both)
  {
    var n, p := Cols(A1), A1[0][0];
    var q := seq(n, k requires 0 <= k < n => -Div(A1[0][k], p));
    var D := AddToColumns(A1, 0, q, 1);
    ClearFirstRow(A1, q, D);
    var M := Embed(D, S);
    assert Equivalent(D, M, Both) by { PivotEquivalent(D, S); }
    var q' := seq(n, k requires 0 <= k < n => Div(A1[0][k], p));
    var E := AddToColumns(M, 0, q', 1);
    RestoreFirstRow(A1, S, D, q', E);
    EquivalentChain(A1, D, M, Columns, Both);
    EquivalentChain(A1, M, E, Both, Columns);
  }

  /** A pivot block [[p, 0], [0, Y]] is equivalent to [[p, 0], [0, S]] when Y is equivalent to S. */
  lemma PivotEquivalent(D: Matrix, S: Matrix)
    requires PivotBlock(D) && |D| >= 2 && Cols(D) >= 2
    requires Equivalent(Sub(D), S, Both)
    requires Rect(S) && |S| == |D| - 1 && Cols(S) == Cols(D) - 1
    ensures Equivalent(D, Embed(D, S), Both)
  {
    var steps :| AllFit(steps, |Sub(D)|, Cols(Sub(D)), Both) && Run(Sub(D), steps) == S;
    LiftRun(D, Sub(D), steps, Both);
    EmbedSub(D);
    assert AllFit(Lift(steps), |D|, Cols(D), Both) && Run(D, Lift(steps)) == Embed(D, S);
  }

  /** Subtracting multiples of column 0 clears the first row and leaves the other rows alone. */
  lemma ClearFirstRow(A1: Matrix, q: seq<int>, D: Matrix)
    requires Rect(A1) && |A1| >= 2 && Cols(A1) >= 2
    requires forall i :: 1 <= i < |A1| ==> A1[i][0] == 0
    requires forall k :: 0 <= k < Cols(A1) ==> IsDivisor(A1[0][0], A1[0][k])
    requires |q| == Cols(A1) && forall k :: 0 <= k < Cols(A1) ==> q[k] == -Div(A1[0][k], A1[0][0])
    requires Rect(D) && |D| == |A1| && Cols(D) == Cols(A1) && AddedFrom(A1, D, 0, q, 1)
    ensures PivotBlock(D) && |D| == |A1| && Cols(D) == Cols(A1)
    ensures D[0][0] == A1[0][0]
    ensures Sub(D) == Sub(A1)
  {
    var p := A1[0][0];
    forall k | 1 <= k < Cols(A1)
      ensures D[0][k] == 0
    {
      assert q[k] == -Div(A1[0][k], p);
      ClearEntry(A1[0][k], p);
      assert D[0][k] == A1[0][k] + q[k] * p;
    }
    forall i | 1 <= i < |A1|
      ensures D[i] == A1[i]
    {
      forall k | 0 <= k < Cols(A1)
        ensures D[i][k] == A1[i][k]
      {
        assert D[i][k] == if k < 1 then A1[i][k] else A1[i][k] + q[k] * A1[i][0];
      }
    }
    assert Sub(D) == Sub(A1);
  }

  /** Adding the multiples back restores the first row and leaves the rest alone. */
  lemma RestoreFirstRow(A1: Matrix, S: Matrix, D: Matrix, q': seq<int>, E: Matrix)
    requires Rect(A1) && |A1| >= 2 && Cols(A1) >= 2
    requires forall k :: 0 <= k < Cols(A1) ==> IsDivisor(A1[0][0], A1[0][k])
    requires PivotBlock(D) && |D| == |A1| && Cols(D) == Cols(A1) && D[0][0] == A1[0][0]
    requires forall i :: 1 <= i < |A1| ==> D[i][0] == A1[i][0]
    requires Rect(S) && |S| == |A1| - 1 && Cols(S) == Cols(A1) - 1
    requires |q'| == Cols(A1) && forall k :: 0 <= k < Cols(A1) ==> q'[k] == Div(A1[0][k], A1[0][0])
    requires Rect(E) && |E| == |A1| && Cols(E) == Cols(A1) && AddedFrom(Embed(D, S), E, 0, q', 1)
    ensures E == Embed(A1, S)
  {
    var p, M := A1[0][0], Embed(D, S);
    forall i | 0 <= i < |A1|
      ensures E[i] == Embed(A1, S)[i]
    {
      forall k | 0 <= k < Cols(A1)
        ensures E[i][k] == Embed(A1, S)[i][k]
      {
        assert E[i][k] == if k < 1 then M[i][k] else M[i][k] + q'[k] * M[i][0];
        if i == 0 && k > 0 {
          assert Div(A1[0][k], p) * p == A1[0][k];
        }
      }
    }
  }
}
