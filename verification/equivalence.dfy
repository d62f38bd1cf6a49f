/**
 Unimodular equivalence of integer matrices. B is equivalent to A when a
 finite sequence of invertible elementary operations leads from A to B:
 column operations (B = A V) and row operations (B = U A), so that
 B = U A V with U and V unimodular. A row operation is a column operation of
 ColOp applied to every column instead of to every row.
 */
module Equivalence {
  import opened Ints
  import opened Matrices

  /** One elementary operation on the columns or, mirrored, on the rows. */
  datatype Step = ColStep(op: ColOp) | RowStep(op: ColOp)

  /** Which kinds of steps a sequence may use. */
  datatype Side = Columns | Rows | Both

  /** The row operation: every column of A is transformed as ApplyRow transforms a row. */
  function ApplyRows(A: Matrix, op: ColOp): (B: Matrix)
    requires Rect(A)
    ensures Rect(B) && |B| == |A| && Cols(B) == Cols(A)
  {
    seq(|A|, i requires 0 <= i < |A| =>
      seq(Cols(A), j requires 0 <= j < Cols(A) => ApplyRow(op, Col(A, j))[i]))
  }

  /** Column j after a row operation is column j transformed by the operation. */
  lemma ColOfApplyRows(A: Matrix, op: ColOp, j: nat)
    requires Rect(A) && j < Cols(A)
    ensures Col(ApplyRows(A, op), j) == ApplyRow(op, Col(A, j))
  {}

  function ApplyStep(A: Matrix, s: Step): (B: Matrix)
    requires Rect(A)
    ensures Rect(B) && |B| == |A| && Cols(B) == Cols(A)
  {
    match s
    case ColStep(op) => ApplyCols(A, op)
    case RowStep(op) => ApplyRows(A, op)
  }

  /** The steps applied from first to last. */
  function Run(A: Matrix, steps: seq<Step>): (B: Matrix)
    requires Rect(A)
    ensures Rect(B) && |B| == |A| && Cols(B) == Cols(A)
    decreases |steps|
  {
    if |steps| == 0 then A else Run(ApplyStep(A, steps[0]), steps[1..])
  }

  /** The step is of an allowed kind and invertible on an m x n matrix. */
  predicate Fits(s: Step, m: nat, n: nat, side: Side) {
    match s
    case ColStep(op) => side != Rows && Invertible(op, n)
    case RowStep(op) => side != Columns && Invertible(op, m)
  }

  predicate AllFit(steps: seq<Step>, m: nat, n: nat, side: Side) {
    forall k :: 0 <= k < |steps| ==> Fits(steps[k], m, n, side)
  }

  /** B is reached from A by invertible steps of the given side. */
  ghost predicate Equivalent(A: Matrix, B: Matrix, side: Side) {
    Rect(A) && exists steps :: AllFit(steps, |A|, Cols(A), side) && Run(A, steps) == B
  }

  lemma {:induction false} RunAppend(A: Matrix, s1: seq<Step>, s2: seq<Step>)
    requires Rect(A)
    ensures Run(A, s1 + s2) == Run(Run(A, s1), s2)
    decreases |s1|
  {
    if |s1| == 0 {
      assert s1 + s2 == s2;
    } else {
      assert (s1 + s2)[1..] == s1[1..] + s2;
      RunAppend(ApplyStep(A, s1[0]), s1[1..], s2);
    }
  }

  /** Equivalent matrices have the same shape. */
  lemma EquivalentShape(A: Matrix, B: Matrix, side: Side)
    requires Equivalent(A, B, side)
    ensures Rect(B) && |B| == |A| && Cols(B) == Cols(A)
  {
    var steps :| AllFit(steps, |A|, Cols(A), side) && Run(A, steps) == B;
  }

  lemma EquivalentRefl(A: Matrix, side: Side)
    requires Rect(A)
    ensures Equivalent(A, A, side)
  {
    var steps: seq<Step> := [];
    assert AllFit(steps, |A|, Cols(A), side) && Run(A, steps) == A;
  }

  /** One invertible column operation. */
  lemma ColumnOperation(A: Matrix, op: ColOp)
    requires Rect(A) && Invertible(op, Cols(A))
    ensures Equivalent(A, ApplyCols(A, op), Columns)
  {
    var steps := [ColStep(op)];
    assert Run(ApplyStep(A, steps[0]), steps[1..]) == ApplyCols(A, op);
    assert AllFit(steps, |A|, Cols(A), Columns) && Run(A, steps) == ApplyCols(A, op);
  }

  /** One invertible row operation. */
  lemma RowOperation(A: Matrix, op: ColOp)
    requires Rect(A) && Invertible(op, |A|)
    ensures Equivalent(A, ApplyRows(A, op), Rows)
  {
    var steps := [RowStep(op)];
    assert Run(ApplyStep(A, steps[0]), steps[1..]) == ApplyRows(A, op);
    assert AllFit(steps, |A|, Cols(A), Rows) && Run(A, steps) == ApplyRows(A, op);
  }

  lemma EquivalentTrans(A: Matrix, B: Matrix, C: Matrix, side: Side)
    requires Equivalent(A, B, side) && Equivalent(B, C, side)
    ensures Equivalent(A, C, side)
  {
    var s1 :| AllFit(s1, |A|, Cols(A), side) && Run(A, s1) == B;
    var s2 :| AllFit(s2, |B|, Cols(B), side) && Run(B, s2) == C;
    RunAppend(A, s1, s2);
    assert AllFit(s1 + s2, |A|, Cols(A), side);
  }

  /** Steps of one side are steps of both. */
  lemma EquivalentWiden(A: Matrix, B: Matrix, side: Side)
    requires Equivalent(A, B, side)
    ensures Equivalent(A, B, Both)
  {
    var steps :| AllFit(steps, |A|, Cols(A), side) && Run(A, steps) == B;
    assert AllFit(steps, |A|, Cols(A), Both);
  }

  lemma EquivalentChain(A: Matrix, B: Matrix, C: Matrix, s1: Side, s2: Side)
    requires Equivalent(A, B, s1) && Equivalent(B, C, s2)
    ensures Equivalent(A, C, Both)
  {
    EquivalentWiden(A, B, s1);
    EquivalentWiden(B, C, s2);
    EquivalentTrans(A, B, C, Both);
  }

  // ---------------------------------------------------------------------
  // Transposition exchanges column and row operations
  // ---------------------------------------------------------------------

  lemma TransposeApplyCols(X: Matrix, op: ColOp)
    requires Rect(X)
    ensures Rect(ApplyCols(X, op))
    ensures Transpose(ApplyCols(X, op)) == ApplyRows(Transpose(X), op)
  {
    var Y := ApplyCols(X, op);
    var T := Transpose(X);
    var L, R := Transpose(Y), ApplyRows(T, op);
    assert |L| == |R|;
    forall j | 0 <= j < |L|
      ensures L[j] == R[j]
    {
      assert |L[j]| == |X| == |R[j]|;
      forall i | 0 <= i < |X|
        ensures L[j][i] == R[j][i]
      {
        assert Col(T, i) == X[i];
      }
    }
  }

  /** Every step of the sequence is a column step. */
  predicate ColumnSteps(steps: seq<Step>) {
    forall k :: 0 <= k < |steps| ==> steps[k].ColStep?
  }

  /** The same operations as row steps. */
  function Mirror(steps: seq<Step>): (r: seq<Step>)
    ensures |r| == |steps|
    ensures forall k :: 0 <= k < |r| ==> r[k] == RowStep(steps[k].op)
  {
    seq(|steps|, k requires 0 <= k < |steps| => RowStep(steps[k].op))
  }

  lemma {:induction false} TransposeRun(X: Matrix, steps: seq<Step>)
    requires Rect(X) && ColumnSteps(steps)
    ensures Transpose(Run(X, steps)) == Run(Transpose(X), Mirror(steps))
    decreases |steps|
  {
    if |steps| > 0 {
      TransposeApplyCols(X, steps[0].op);
      assert Mirror(steps)[1..] == Mirror(steps[1..]);
      TransposeRun(ApplyCols(X, steps[0].op), steps[1..]);
    }
  }

  /** Column operations on A are row operations on its transpose. */
  lemma EquivalentTranspose(A: Matrix, B: Matrix)
    requires Equivalent(A, B, Columns)
    ensures Equivalent(Transpose(A), Transpose(B), Rows)
  {
    var steps :| AllFit(steps, |A|, Cols(A), Columns) && Run(A, steps) == B;
    TransposeRun(A, steps);
    assert AllFit(Mirror(steps), |Transpose(A)|, Cols(Transpose(A)), Rows);
  }

  // ---------------------------------------------------------------------
  // Every step can be undone
  // ---------------------------------------------------------------------

  /** The step that undoes s on an m x n matrix. */
  function Undo(s: Step, m: nat, n: nat): (u: Step)
    requires Fits(s, m, n, Both)
  {
    match s
    case ColStep(op) => ColStep(Inverse(op, n))
    case RowStep(op) => RowStep(Inverse(op, m))
  }

  lemma UndoStep(A: Matrix, s: Step, side: Side)
    requires Rect(A) && Fits(s, |A|, Cols(A), side)
    ensures Fits(Undo(s, |A|, Cols(A)), |A|, Cols(A), side)
    ensures ApplyStep(ApplyStep(A, s), Undo(s, |A|, Cols(A))) == A
  {
    match s
    case ColStep(op) =>
      if |A| > 0 {
        InverseRoundTrip(op, A[0]);
      }
      UndoColumns(A, op);
    case RowStep(op) =>
      if Cols(A) > 0 {
        InverseRoundTrip(op, Col(A, 0));
      }
      UndoRows(A, op);
  }

  lemma UndoColumns(A: Matrix, op: ColOp)
    requires Rect(A) && Invertible(op, Cols(A))
    ensures ApplyCols(ApplyCols(A, op), Inverse(op, Cols(A))) == A
  {
    var C := ApplyCols(ApplyCols(A, op), Inverse(op, Cols(A)));
    forall i | 0 <= i < |A|
      ensures C[i] == A[i]
    {
      InverseRoundTrip(op, A[i]);
    }
  }

  lemma UndoRows(A: Matrix, op: ColOp)
    requires Rect(A) && Invertible(op, |A|)
    ensures ApplyRows(ApplyRows(A, op), Inverse(op, |A|)) == A
  {
    var B := ApplyRows(A, op);
    var C := ApplyRows(B, Inverse(op, |A|));
    forall j | 0 <= j < Cols(A)
      ensures Col(C, j) == Col(A, j)
    {
      ColOfApplyRows(A, op, j);
      ColOfApplyRows(B, Inverse(op, |A|), j);
      InverseRoundTrip(op, Col(A, j));
    }
    forall i | 0 <= i < |A|
      ensures C[i] == A[i]
    {
      forall j | 0 <= j < Cols(A)
        ensures C[i][j] == A[i][j]
      {
        assert C[i][j] == Col(C, j)[i] && A[i][j] == Col(A, j)[i];
      }
    }
  }

  /** Equivalence is symmetric: the inverse steps in reverse order lead back. */
  lemma {:induction false} EquivalentSymmetric(A: Matrix, B: Matrix, side: Side)
    requires Equivalent(A, B, side)
    ensures Equivalent(B, A, side)
  {
    var steps :| AllFit(steps, |A|, Cols(A), side) && Run(A, steps) == B;
    RunSymmetric(A, steps, side);
  }

  lemma {:induction false} RunSymmetric(A: Matrix, steps: seq<Step>, side: Side)
    requires Rect(A) && AllFit(steps, |A|, Cols(A), side)
    ensures Equivalent(Run(A, steps), A, side)
    decreases |steps|
  {
    if |steps| == 0 {
      EquivalentRefl(A, side);
    } else {
      var A1 := ApplyStep(A, steps[0]);
      assert AllFit(steps[1..], |A1|, Cols(A1), side);
      RunSymmetric(A1, steps[1..], side);
      UndoStep(A, steps[0], side);
      var u := [Undo(steps[0], |A|, Cols(A))];
      assert Run(A1, u) == A;
      assert AllFit(u, |A1|, Cols(A1), side);
      EquivalentTrans(Run(A, steps), A1, A, side);
    }
  }
}
