/**
 One elimination step of Iliopoulos' algorithm (SmithFormIliopoulos::
 eliminationRow, eliminationCol and check): unimodular column operations make
 the first row (pivot, 0, ..., 0); the mirror-image row operations do the same
 for the first column.
 */
module Elimination {
  import opened Ints
  import opened Matrices
  import opened Equivalence

  /** Every entry of v is zero. */
  predicate ZeroRow(v: seq<int>) {
    forall k :: 0 <= k < |v| ==> v[k] == 0
  }

  /**
   The coefficients of the 2x2 step: (g, s, t) = xgcd(a, b), y2 = a / g,
   y1 = -(b / g). The combination (c0, c1) := (y1 c0 + y2 c1, s c0 + t c1)
   sends the pair (a, b) to (0, g) and has determinant -1.
   */
  function TwoByTwo(a: int, b: int): (r: (int, int, int, int, int))
    requires a != 0
    ensures var (g, s, t, y1, y2) := r;
      && g != 0
      && IsDivisor(g, a) && IsDivisor(g, b)
      && y1 * a + y2 * b == 0
      && s * a + t * b == g
      && y1 * t - y2 * s == -1
  {
    var (g, s, t) := XGcd(a, b);
    var y2, y1 := Div(a, g), -Div(b, g);
    TwoByTwoFacts(a, b, g, s, t, y1, y2);
    (g, s, t, y1, y2)
  }

  lemma TwoByTwoFacts(a: int, b: int, g: int, s: int, t: int, y1: int, y2: int)
    requires a != 0 && g == s * a + t * b && IsDivisor(g, a) && IsDivisor(g, b)
    requires y2 == Div(a, g) && y1 == -Div(b, g)
    ensures g != 0
    ensures y1 * a + y2 * b == 0
    ensures y1 * t - y2 * s == -1
  {
    var qa, qb := Div(a, g), Div(b, g);
    assert a == qa * g && b == qb * g;
    assert y1 * a + y2 * b == -(qb * (qa * g)) + qa * (qb * g);
    var det := y1 * t - y2 * s;
    assert det * g == -(t * (qb * g)) - s * (qa * g);
    assert det * g == -g;
    assert (det + 1) * g == 0;
    if det + 1 != 0 {
      MulAbsGe(det + 1, g);
    }
  }

  /**
   Lines 103-144: a non-zero, non-unit pivot is moved out of the way by the
   2x2 step on columns 0 and 1; the corrective axpy at lines 134-143 runs only
   if the new A[0][0] is non-zero, which never happens over the integers.
   */
  function PivotToZero(A: Matrix): (B: Matrix)
    requires Rect(A) && Cols(A) >= 2 && A[0][0] != 0
    ensures Rect(B) && |B| == |A| && Cols(B) == Cols(A)
    ensures SameRowDivisors(A, B)
    ensures Equivalent(A, B, Columns)
    ensures B[0][0] == 0 && B[0][1] != 0
  {
    var (g, s, t, y1, y2) := TwoByTwo(A[0][0], A[0][1]);
    var A1 := ApplyCols(A, Mix(0, 1, y1, y2, s, t));
    ApplyColsInvertible(A, Mix(0, 1, y1, y2, s, t));
    ColumnOperation(A, Mix(0, 1, y1, y2, s, t));
    var p := A1[0][0];
    if p != 0 then
      ColumnOperation(A1, Axpy(0, -Div(p, g), 1));
      EquivalentTrans(A, A1, ApplyCols(A1, Axpy(0, -Div(p, g), 1)), Columns);
      ApplyCols(A1, Axpy(0, -Div(p, g), 1))
    else A1
  }

  /** Entries lo..hi-1 of v multiplied by s (the mulin loop at lines 170-172). */
  function ScaleRange(v: seq<int>, lo: nat, hi: nat, s: int): (w: seq<int>)
    ensures |w| == |v|
    ensures lo <= hi <= |v| ==> w[lo..hi] == ScaleVec(v[lo..hi], s) && w[..lo] == v[..lo] && w[hi..] == v[hi..]
  {
    seq(|v|, k requires 0 <= k < |v| => if lo <= k < hi then v[k] * s else v[k])
  }

  /**
   Lines 147-176: the weight vector tmp_v and running generator g after the
   entries 1..j-1 of the row r have been folded in by repeated xgcd.
   g is the weighted sum of those entries and divides each of them.
   */
  function Accumulate(r: seq<int>, j: nat): (res: (int, seq<int>))
    requires 2 <= j <= |r|
    ensures |res.1| == |r| && res.1[0] == 1
    ensures res.0 == Dot(res.1[1..j], r[1..j])
    ensures forall k :: 1 <= k < j ==> IsDivisor(res.0, r[k])
    decreases j
  {
    if j == 2 then
      DivisorSelf(r[1]);
      (r[1], [1, 1] + seq(|r| - 2, _ => 0))
    else
      var (g, v) := Accumulate(r, j - 1);
      var (g', s, t) := XGcd(g, r[j - 1]);
      var v1 := if s != 1 then ScaleRange(v, 1, j - 1, s) else v;
      var v' := v1[j - 1 := t];
      AccumulateStep(r, j, g, v, g', s, t, v1, v');
      (g', v')
  }

  lemma AccumulateStep(r: seq<int>, j: nat, g: int, v: seq<int>, g': int, s: int, t: int,
                       v1: seq<int>, v': seq<int>)
    requires 3 <= j <= |r| && |v| == |r| && v[0] == 1
    requires g == Dot(v[1..j - 1], r[1..j - 1])
    requires forall k :: 1 <= k < j - 1 ==> IsDivisor(g, r[k])
    requires g' == s * g + t * r[j - 1] && IsDivisor(g', g) && IsDivisor(g', r[j - 1])
    requires v1 == if s != 1 then ScaleRange(v, 1, j - 1, s) else v
    requires v' == v1[j - 1 := t]
    ensures |v'| == |r| && v'[0] == 1
    ensures g' == Dot(v'[1..j], r[1..j])
    ensures forall k :: 1 <= k < j ==> IsDivisor(g', r[k])
  {
    assert v1[1..j - 1] == ScaleVec(v[1..j - 1], s);
    assert v'[1..j] == v1[1..j - 1] + [t];
    assert r[1..j] == r[1..j - 1] + [r[j - 1]];
    DotSnoc(v1[1..j - 1], r[1..j - 1], t, r[j - 1]);
    DotScale(v[1..j - 1], r[1..j - 1], s);
    forall k | 1 <= k < j - 1
      ensures IsDivisor(g', r[k])
    {
      DivisorTrans(g', g, r[k]);
    }
  }

  /**
   Lines 194-210: with g the pivot A[0][0], every later column whose first
   entry is non-zero gets column j += -(A[0][j] / g) * column 0. Columns j..
   are still to be processed.
   */
  function FinalPass(A: Matrix, g: int, j: nat): (B: Matrix)
    requires Rect(A) && 1 <= j <= Cols(A) && g == A[0][0]
    ensures Rect(B) && |B| == |A| && Cols(B) == Cols(A)
    ensures SameRowDivisors(A, B)
    ensures Equivalent(A, B, Columns)
    ensures forall i :: 0 <= i < |A| ==> B[i][0] == A[i][0]
    ensures forall k :: 1 <= k < j ==> B[0][k] == A[0][k]
    ensures forall k :: j <= k < Cols(A) ==> IsDivisor(g, A[0][k]) ==> B[0][k] == 0
    decreases Cols(A) - j
  {
    if j == Cols(A) then
      EquivalentRefl(A, Columns);
      A
    else
      var A' := if A[0][j] != 0 then ApplyCols(A, Axpy(j, -Div(A[0][j], g), 0)) else A;
      FinalPassStep(A, g, j, A');
      var B := FinalPass(A', g, j + 1);
      FinalPassChain(A, A', B, g, j);
      B
  }

  /** One column of the final pass followed by the rest of it. */
  lemma FinalPassChain(A: Matrix, A': Matrix, B: Matrix, g: int, j: nat)
    requires Rect(A) && 1 <= j < Cols(A) && g == A[0][0]
    requires Rect(A') && |A'| == |A| && Cols(A') == Cols(A)
    requires SameRowDivisors(A, A') && Equivalent(A, A', Columns)
    requires forall i :: 0 <= i < |A| ==> A'[i][0] == A[i][0]
    requires forall k :: 0 <= k < Cols(A) && k != j ==> A'[0][k] == A[0][k]
    requires IsDivisor(g, A[0][j]) ==> A'[0][j] == 0
    requires Rect(B) && |B| == |A| && Cols(B) == Cols(A)
    requires SameRowDivisors(A', B) && Equivalent(A', B, Columns)
    requires forall i :: 0 <= i < |A| ==> B[i][0] == A'[i][0]
    requires forall k :: 1 <= k < j + 1 ==> B[0][k] == A'[0][k]
    requires forall k :: j + 1 <= k < Cols(A) ==> IsDivisor(g, A'[0][k]) ==> B[0][k] == 0
    ensures SameRowDivisors(A, B)
    ensures Equivalent(A, B, Columns)
    ensures forall i :: 0 <= i < |A| ==> B[i][0] == A[i][0]
    ensures forall k :: 1 <= k < j ==> B[0][k] == A[0][k]
    ensures forall k :: j <= k < Cols(A) ==> IsDivisor(g, A[0][k]) ==> B[0][k] == 0
  {
    EquivalentTrans(A, A', B, Columns);
    SameRowDivisorsTrans(A, A', B);
  }

  lemma FinalPassStep(A: Matrix, g: int, j: nat, A': Matrix)
    requires Rect(A) && 1 <= j < Cols(A) && g == A[0][0]
    requires A' == if A[0][j] != 0 then ApplyCols(A, Axpy(j, -Div(A[0][j], g), 0)) else A
    ensures Rect(A') && |A'| == |A| && Cols(A') == Cols(A)
    ensures SameRowDivisors(A, A')
    ensures Equivalent(A, A', Columns)
    ensures forall i :: 0 <= i < |A| ==> A'[i][0] == A[i][0]
    ensures forall k :: 0 <= k < Cols(A) && k != j ==> A'[0][k] == A[0][k]
    ensures IsDivisor(g, A[0][j]) ==> A'[0][j] == 0
  {
    if A[0][j] == 0 {
      EquivalentRefl(A, Columns);
      assert SameRowDivisors(A, A);
    } else {
      FinalPassClear(A, g, j, -Div(A[0][j], g), A');
    }
  }

  /** The axpy of one column of the final pass. */
  lemma FinalPassClear(A: Matrix, g: int, j: nat, x: int, A': Matrix)
    requires Rect(A) && 1 <= j < Cols(A) && g == A[0][0]
    requires x == -Div(A[0][j], g) && A' == ApplyCols(A, Axpy(j, x, 0))
    ensures Rect(A') && |A'| == |A| && Cols(A') == Cols(A)
    ensures SameRowDivisors(A, A')
    ensures Equivalent(A, A', Columns)
    ensures forall i :: 0 <= i < |A| ==> A'[i][0] == A[i][0]
    ensures forall k :: 0 <= k < Cols(A) && k != j ==> A'[0][k] == A[0][k]
    ensures IsDivisor(g, A[0][j]) ==> A'[0][j] == 0
  {
    assert Equivalent(A, A', Columns) by { ColumnOperation(A, Axpy(j, x, 0)); }
    assert SameRowDivisors(A, A') by { ApplyColsInvertible(A, Axpy(j, x, 0)); }
    AxpyFromPivot(A, j, x);
    if IsDivisor(g, A[0][j]) {
      assert A[0][j] + x * g == 0 by { ClearEntry(A[0][j], g); }
    }
  }

  /** Column j += x * column 0 changes only column j, and in the first row by x times the pivot. */
  lemma AxpyFromPivot(A: Matrix, j: nat, x: int)
    requires Rect(A) && |A| > 0 && 1 <= j < Cols(A)
    ensures forall i :: 0 <= i < |A| ==> ApplyCols(A, Axpy(j, x, 0))[i][0] == A[i][0]
    ensures forall k :: 0 <= k < Cols(A) && k != j ==> ApplyCols(A, Axpy(j, x, 0))[0][k] == A[0][k]
    ensures ApplyCols(A, Axpy(j, x, 0))[0][j] == A[0][j] + x * A[0][0]
  {}

  /** Lines 85-97 and the final pass: the pivot is a unit. */
  function UnitPivotRow(A: Matrix): (B: Matrix)
    requires Rect(A) && Cols(A) >= 2 && IsUnit(A[0][0])
    ensures Rect(B) && |B| == |A| && Cols(B) == Cols(A)
    ensures SameRowDivisors(A, B)
    ensures Equivalent(A, B, Columns)
    ensures B[0][0] == 1
    ensures forall k :: 1 <= k < Cols(A) ==> B[0][k] == 0
    ensures forall i :: 0 <= i < |A| ==> B[i][0] == A[i][0] * Inv(A[0][0])
  {
    var a := A[0][0];
    var A1 := if a != 1 then ApplyCols(A, Scale(0, Inv(a))) else A;
    UnitPivotFacts(A, A1);
    var B := FinalPass(A1, A1[0][0], 1);
    EquivalentTrans(A, A1, B, Columns);
    B
  }

  lemma UnitPivotFacts(A: Matrix, A1: Matrix)
    requires Rect(A) && Cols(A) >= 2 && IsUnit(A[0][0])
    requires A1 == if A[0][0] != 1 then ApplyCols(A, Scale(0, Inv(A[0][0]))) else A
    ensures Rect(A1) && |A1| == |A| && Cols(A1) == Cols(A)
    ensures SameRowDivisors(A, A1)
    ensures Equivalent(A, A1, Columns)
    ensures A1[0][0] == 1
    ensures forall i :: 0 <= i < |A| ==> A1[i][0] == A[i][0] * Inv(A[0][0])
    ensures forall k :: 0 <= k < Cols(A) ==> IsDivisor(A1[0][0], A1[0][k])
  {
    if A[0][0] != 1 {
      ApplyColsInvertible(A, Scale(0, Inv(A[0][0])));
      ColumnOperation(A, Scale(0, Inv(A[0][0])));
    } else {
      EquivalentRefl(A, Columns);
    }
    forall k | 0 <= k < Cols(A)
      ensures IsDivisor(A1[0][0], A1[0][k])
    {
      UnitDivides(1, A1[0][k]);
    }
  }

  /**
   Lines 99-187 and the final pass: the pivot is not a unit. A non-zero pivot
   is first moved away (PivotToZero); then the generator of the rest of the
   row is accumulated; if it is zero the row is zero and nothing more is done,
   otherwise the dot pass puts it in column 0 and the final pass clears the row.
   */
  function NonUnitPivotRow(A: Matrix): (B: Matrix)
    requires Rect(A) && Cols(A) >= 2 && !IsUnit(A[0][0])
    ensures Rect(B) && |B| == |A| && Cols(B) == Cols(A)
    ensures SameRowDivisors(A, B)
    ensures Equivalent(A, B, Columns)
    ensures forall k :: 1 <= k < Cols(A) ==> B[0][k] == 0
    ensures ZeroRow(A[0]) ==> B == A
  {
    var A1 := MovePivot(A);
    var (g, v) := Accumulate(A1[0], Cols(A1));
    NonUnitPivotFacts(A, A1, g, v);
    if g == 0 then A1
    else
      var A2 := ApplyCols(A1, DotInto(0, v));
      var B := FinalPass(A2, g, 1);
      NonUnitPivotChain(A, A1, A2, B, g);
      B
  }

  /** The moves, the accumulation into column 0 and the final pass put together. */
  lemma NonUnitPivotChain(A: Matrix, A1: Matrix, A2: Matrix, B: Matrix, g: int)
    requires Rect(A) && Cols(A) >= 2 && Rect(B) && |B| == |A| && Cols(B) == Cols(A)
    requires SameRowDivisors(A, A1) && SameRowDivisors(A1, A2) && SameRowDivisors(A2, B)
    requires Equivalent(A, A1, Columns) && Equivalent(A1, A2, Columns) && Equivalent(A2, B, Columns)
    requires |A2| == |A| && Cols(A2) == Cols(A) && A2[0][0] == g
    requires forall k :: 1 <= k < Cols(A) ==> IsDivisor(g, A2[0][k])
    requires forall k :: 1 <= k < Cols(A) ==> IsDivisor(g, A2[0][k]) ==> B[0][k] == 0
    ensures SameRowDivisors(A, B)
    ensures Equivalent(A, B, Columns)
    ensures forall k :: 1 <= k < Cols(A) ==> B[0][k] == 0
  {
    EquivalentTrans(A1, A2, B, Columns);
    EquivalentTrans(A, A1, B, Columns);
    assert SameRowDivisors(A, A2) by { SameRowDivisorsTrans(A, A1, A2); }
    SameRowDivisorsTrans(A, A2, B);
  }

  /** Lines 99-144: only a non-zero pivot is moved out of column 0. */
  function MovePivot(A: Matrix): (A1: Matrix)
    requires Rect(A) && Cols(A) >= 2
    ensures Rect(A1) && |A1| == |A| && Cols(A1) == Cols(A)
    ensures SameRowDivisors(A, A1)
    ensures Equivalent(A, A1, Columns)
    ensures A1[0][0] == 0
    ensures A[0][0] != 0 ==> A1[0][1] != 0
    ensures A[0][0] == 0 ==> A1 == A
  {
    if A[0][0] != 0 then PivotToZero(A)
    else
      EquivalentRefl(A, Columns);
      A
  }

  lemma NonUnitPivotFacts(A: Matrix, A1: Matrix, g: int, v: seq<int>)
    requires Rect(A) && Cols(A) >= 2
    requires A1 == MovePivot(A)
    requires (g, v) == Accumulate(A1[0], Cols(A1))
    ensures g == 0 ==> forall k :: 1 <= k < Cols(A) ==> A1[0][k] == 0
    ensures g == 0 && A[0][0] != 0 ==> false
    ensures ZeroRow(A[0]) ==> g == 0
    ensures g != 0 ==> Rect(ApplyCols(A1, DotInto(0, v))) && ApplyCols(A1, DotInto(0, v))[0][0] == g
    ensures g != 0 ==> forall k :: 1 <= k < Cols(A) ==>
      ApplyCols(A1, DotInto(0, v))[0][k] == A1[0][k] && IsDivisor(g, ApplyCols(A1, DotInto(0, v))[0][k])
    ensures g != 0 ==> SameRowDivisors(A1, ApplyCols(A1, DotInto(0, v)))
    ensures g != 0 ==> Equivalent(A1, ApplyCols(A1, DotInto(0, v)), Columns)
    ensures g != 0 ==> |ApplyCols(A1, DotInto(0, v))| == |A| && Cols(ApplyCols(A1, DotInto(0, v))) == Cols(A)
  {
    if g == 0 {
      forall k | 1 <= k < Cols(A)
        ensures A1[0][k] == 0
      {
        assert IsDivisor(g, A1[0][k]);
      }
    } else {
      DotPassFacts(A1, g, v, ApplyCols(A1, DotInto(0, v)));
    }
    if ZeroRow(A[0]) {
      var r := A1[0];
      assert r == A[0];
      DotZero(v[1..|r|], r[1..|r|]);
    }
  }

  lemma DotPassFacts(A1: Matrix, g: int, v: seq<int>, A2: Matrix)
    requires Rect(A1) && Cols(A1) >= 2 && A1[0][0] == 0
    requires (g, v) == Accumulate(A1[0], Cols(A1))
    requires A2 == ApplyCols(A1, DotInto(0, v))
    ensures Rect(A2) && |A2| == |A1| && Cols(A2) == Cols(A1)
    ensures SameRowDivisors(A1, A2)
    ensures Equivalent(A1, A2, Columns)
    ensures A2[0][0] == g
    ensures forall k :: 1 <= k < Cols(A1) ==> A2[0][k] == A1[0][k] && IsDivisor(g, A2[0][k])
  {
    var r := A1[0];
    ApplyColsInvertible(A1, DotInto(0, v));
    ColumnOperation(A1, DotInto(0, v));
    assert v[1..|r|] == v[1..] && r[1..|r|] == r[1..];
    assert A2[0][0] == Dot(v, r) == v[0] * r[0] + Dot(v[1..], r[1..]);
  }

  /**
   eliminationRow: column operations that make the first row (p, 0, ..., 0).
   Matrices with at most one column are returned unchanged (line 61).
   */
  function EliminationRow(A: Matrix): (B: Matrix)
    requires Rect(A)
    ensures Rect(B) && |B| == |A| && Cols(B) == Cols(A)
    ensures Cols(A) <= 1 ==> B == A
    ensures Cols(A) >= 2 ==> forall k :: 1 <= k < Cols(A) ==> B[0][k] == 0
    ensures SameRowDivisors(A, B)
    ensures Equivalent(A, B, Columns)
    ensures |A| > 0 && ZeroRow(A[0]) ==> B == A
    ensures Cols(A) >= 2 && IsUnit(A[0][0]) ==>
      B[0][0] == 1 && forall i :: 0 <= i < |A| ==> B[i][0] == A[i][0] * Inv(A[0][0])
  {
    if Cols(A) <= 1 then
      EquivalentRefl(A, Columns);
      A
    else if IsUnit(A[0][0]) then UnitPivotRow(A)
    else NonUnitPivotRow(A)
  }

  /** Column j of A and of B have the same common divisors, for every j. */
  ghost predicate SameColDivisors(A: Matrix, B: Matrix) {
    Rect(A) && Rect(B) && Cols(A) == Cols(B) &&
    forall j, d :: 0 <= j < Cols(A) ==> (CommonDivisor(d, Col(A, j)) <==> CommonDivisor(d, Col(B, j)))
  }

  /**
   eliminationCol: the same elimination by row operations, making the first
   column (p, 0, ..., 0)^T. The code is the line-for-line mirror of
   eliminationRow with rows and columns exchanged, so it is modelled as
   eliminationRow on the transpose. Matrices with at most one row are
   returned unchanged (line 226).
   */
  function EliminationCol(A: Matrix): (B: Matrix)
    requires Rect(A) && (|A| >= 2 ==> Cols(A) >= 1)
    ensures Rect(B) && |B| == |A| && Cols(B) == Cols(A)
    ensures |A| <= 1 ==> B == A
    ensures forall i :: 1 <= i < |A| ==> B[i][0] == 0
    ensures SameColDivisors(A, B)
    ensures Equivalent(A, B, Rows)
    ensures Cols(A) >= 1 && ZeroRow(Col(A, 0)) ==> B == A
    ensures |A| >= 2 && IsUnit(A[0][0]) ==>
      B[0][0] == 1 && forall k :: 0 <= k < Cols(A) ==> B[0][k] == A[0][k] * Inv(A[0][0])
  {
    if |A| <= 1 then
      EquivalentRefl(A, Rows);
      A
    else
      var T := Transpose(A);
      var E := EliminationRow(T);
      EliminationColFacts(A, T, E);
      Transpose(E)
  }

  lemma EliminationColFacts(A: Matrix, T: Matrix, E: Matrix)
    requires Rect(A) && |A| >= 2 && Cols(A) >= 1
    requires T == Transpose(A) && E == EliminationRow(T)
    ensures Rect(Transpose(E)) && |Transpose(E)| == |A| && Cols(Transpose(E)) == Cols(A)
    ensures forall i :: 1 <= i < |A| ==> Transpose(E)[i][0] == 0
    ensures SameColDivisors(A, Transpose(E))
    ensures Equivalent(A, Transpose(E), Rows)
    ensures ZeroRow(Col(A, 0)) ==> Transpose(E) == A
    ensures IsUnit(A[0][0]) ==>
      Transpose(E)[0][0] == 1 && forall k :: 0 <= k < Cols(A) ==> Transpose(E)[0][k] == A[0][k] * Inv(A[0][0])
  {
    var B := Transpose(E);
    TransposeTwice(A);
    TransposeTwice(E);
    EquivalentTranspose(T, E);
    assert T[0] == Col(A, 0);
    forall i | 1 <= i < |A|
      ensures B[i][0] == 0
    {
      assert B[i][0] == Col(E, i)[0] == E[0][i];
    }
    forall j | 0 <= j < Cols(A)
      ensures Col(B, j) == E[j] && Col(A, j) == T[j]
    {
      assert Transpose(B)[j] == Col(B, j);
    }
    if IsUnit(A[0][0]) {
      forall k | 0 <= k < Cols(A)
        ensures B[0][k] == A[0][k] * Inv(A[0][0])
      {
        assert B[0][k] == E[k][0] && T[k][0] == A[0][k];
      }
    }
  }

  /**
   check: true when the pivot is zero or divides every other entry of the
   first row (lines 372-400). The matrix must have an entry A[0][0].
   */
  function Check(A: Matrix): (ok: bool)
    requires Rect(A) && |A| >= 1 && Cols(A) >= 1
    ensures ok <==> (A[0][0] == 0 || forall k :: 1 <= k < Cols(A) ==> IsDivisor(A[0][0], A[0][k]))
  {
    A[0][0] == 0 || CheckFrom(A[0], 1)
  }

  /** The loop at lines 392-397 from position k on, returning false at the first failure. */
  function CheckFrom(row: seq<int>, k: nat): (ok: bool)
    requires 1 <= k <= |row|
    ensures ok <==> forall m :: k <= m < |row| ==> IsDivisor(row[0], row[m])
    decreases |row| - k
  {
    if k == |row| then true
    else if !IsDivisor(row[0], row[k]) then false
    else CheckFrom(row, k + 1)
  }

  // ---------------------------------------------------------------------
  // Properties relating the steps to the first row and column
  // ---------------------------------------------------------------------

  /** After eliminationRow the pivot generates the ideal of the original first row. */
  lemma PivotGeneratesRow(A: Matrix)
    requires Rect(A) && Cols(A) >= 2
    ensures forall d :: IsDivisor(d, EliminationRow(A)[0][0]) <==> CommonDivisor(d, A[0])
  {
    var B := EliminationRow(A);
    forall d
      ensures IsDivisor(d, B[0][0]) <==> CommonDivisor(d, B[0])
    {
      if IsDivisor(d, B[0][0]) {
        forall k | 1 <= k < |B[0]|
          ensures IsDivisor(d, B[0][k])
        {
          DivisorSelf(d);
        }
      }
    }
  }

  /** After eliminationCol the pivot generates the ideal of the original first column. */
  lemma PivotGeneratesCol(A: Matrix)
    requires Rect(A) && |A| >= 2 && Cols(A) >= 1
    ensures forall d :: IsDivisor(d, EliminationCol(A)[0][0]) <==> CommonDivisor(d, Col(A, 0))
  {
    var B := EliminationCol(A);
    PivotOnlyEntry(Col(B, 0));
  }

  /** A vector whose only non-zero entry can be the first has that entry as its gcd. */
  lemma PivotOnlyEntry(v: seq<int>)
    requires |v| >= 1 && forall i :: 1 <= i < |v| ==> v[i] == 0
    ensures forall d :: IsDivisor(d, v[0]) <==> CommonDivisor(d, v)
  {
    forall d | IsDivisor(d, v[0])
      ensures CommonDivisor(d, v)
    {
      DivisorSelf(d);
    }
  }
}
