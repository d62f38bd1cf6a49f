/**
 Dense matrices over the integers and the elementary column operations the
 elimination builds from VectorDomain (mul, mulin, axpyin, copy, dot). A
 column operation acts on every row in the same way, so it is defined on one
 row (`ApplyRow`) and lifted to the matrix (`ApplyCols`).
 */
module Matrices {
  import opened Ints

  /** A matrix is its sequence of rows. */
  type Matrix = seq<seq<int>>

  /** Column dimension (a matrix with no rows has no columns). */
  function Cols(A: Matrix): nat {
    if |A| == 0 then 0 else |A[0]|
  }

  /** Every row has the same length. */
  predicate Rect(A: Matrix) {
    forall i :: 0 <= i < |A| ==> |A[i]| == Cols(A)
  }

  /** d divides every entry of v. */
  predicate CommonDivisor(d: int, v: seq<int>) {
    forall k :: 0 <= k < |v| ==> IsDivisor(d, v[k])
  }

  /** d divides every entry of A. */
  predicate AllDivisible(d: int, A: Matrix) {
    forall i :: 0 <= i < |A| ==> CommonDivisor(d, A[i])
  }

  /** Every row of B has the same common divisors as the same row of A. */
  ghost predicate SameRowDivisors(A: Matrix, B: Matrix) {
    |A| == |B| &&
    forall i, d :: 0 <= i < |A| ==> (CommonDivisor(d, A[i]) <==> CommonDivisor(d, B[i]))
  }

  /** A and B have the same common divisors of all their entries. */
  ghost predicate SameEntryDivisors(A: Matrix, B: Matrix) {
    forall d :: AllDivisible(d, A) <==> AllDivisible(d, B)
  }

  /** Column j of A. */
  function Col(A: Matrix, j: nat): seq<int>
    requires Rect(A) && j < Cols(A)
  {
    seq(|A|, i requires 0 <= i < |A| => A[i][j])
  }

  /** The transposed matrix (rows become columns). */
  function Transpose(A: Matrix): (T: Matrix)
    requires Rect(A)
    ensures |T| == Cols(A) && Rect(T)
    ensures |T| > 0 ==> Cols(T) == |A|
    ensures forall j :: 0 <= j < |T| ==> T[j] == Col(A, j)
  {
    seq(Cols(A), j requires 0 <= j < Cols(A) => Col(A, j))
  }

  /** VectorDomain::dot: the sum of the pairwise products. */
  function Dot(v: seq<int>, w: seq<int>): int
    requires |v| == |w|
  {
    if |v| == 0 then 0 else v[0] * w[0] + Dot(v[1..], w[1..])
  }

  /** Every entry of v multiplied by s (VectorDomain::mul / mulin). */
  function ScaleVec(v: seq<int>, s: int): seq<int> {
    seq(|v|, k requires 0 <= k < |v| => v[k] * s)
  }

  /**
   One elementary column operation of the elimination.
   - Scale(c, u): column c := u * column c                      (vd.mulin)
   - Axpy(d, a, s): column d := column d + a * column s        (vd.axpyin)
   - Mix(c0, c1, y1, y2, s, t): (column c0, column c1) :=
       (y1 * column c0 + y2 * column c1, s * column c0 + t * column c1)
                                   (vd.mul, vd.axpyin, vd.copy on tmp1/tmp2)
   - DotInto(c, v): column c := sum over k of v[k] * column k  (vd.dot)
   */
  datatype ColOp =
    | Scale(col: nat, u: int)
    | Axpy(dst: nat, a: int, src: nat)
    | Mix(c0: nat, c1: nat, y1: int, y2: int, s: int, t: int)
    | DotInto(c: nat, v: seq<int>)

  /** The operation fits a row of length n and can be undone. */
  predicate Invertible(op: ColOp, n: nat) {
    match op
    case Scale(c, u) => c < n && IsUnit(u)
    case Axpy(d, a, s) => d < n && s < n && d != s
    case Mix(c0, c1, y1, y2, s, t) => c0 < n && c1 < n && c0 != c1 && y1 * t - y2 * s == -1
    case DotInto(c, v) => c < n && |v| == n && v[c] == 1
  }

  /** The operation on one row (rows that do not fit are left alone). */
  function ApplyRow(op: ColOp, row: seq<int>): (r: seq<int>)
    ensures |r| == |row|
  {
    match op
    case Scale(c, u) =>
      if c < |row| then row[c := row[c] * u] else row
    case Axpy(d, a, s) =>
      if d < |row| && s < |row| then row[d := row[d] + a * row[s]] else row
    case Mix(c0, c1, y1, y2, s, t) =>
      if c0 < |row| && c1 < |row| then
        row[c0 := y1 * row[c0] + y2 * row[c1]][c1 := s * row[c0] + t * row[c1]]
      else row
    case DotInto(c, v) =>
      if c < |row| && |v| == |row| then row[c := Dot(v, row)] else row
  }

  /** The operation applied to every row of A. */
  function ApplyCols(A: Matrix, op: ColOp): (B: Matrix)
    ensures |B| == |A|
    ensures forall i :: 0 <= i < |B| ==> |B[i]| == |A[i]|
  {
    seq(|A|, i requires 0 <= i < |A| => ApplyRow(op, A[i]))
  }

  /** The operation that undoes an invertible one. */
  function Inverse(op: ColOp, n: nat): ColOp
    requires Invertible(op, n)
  {
    match op
    case Scale(c, u) => Scale(c, Inv(u))
    case Axpy(d, a, s) => Axpy(d, -a, s)
    case Mix(c0, c1, y1, y2, s, t) => Mix(c0, c1, -t, y2, s, -y1)
    case DotInto(c, v) => DotInto(c, ScaleVec(v, -1)[c := 1])
  }

  /**
   The same operation on the columns after the first: every column index
   moves up by one. This is what an operation on the submatrix view without
   the first row and column does to the whole matrix.
   */
  function Shift(op: ColOp): ColOp {
    match op
    case Scale(c, u) => Scale(c + 1, u)
    case Axpy(d, a, s) => Axpy(d + 1, a, s + 1)
    case Mix(c0, c1, y1, y2, s, t) => Mix(c0 + 1, c1 + 1, y1, y2, s, t)
    case DotInto(c, v) => DotInto(c + 1, [0] + v)
  }

  /** The shifted operation leaves the first entry alone and acts on the rest as before. */
  lemma ShiftRow(op: ColOp, x: int, row: seq<int>)
    requires Invertible(op, |row|)
    ensures Invertible(Shift(op), |row| + 1)
    ensures ApplyRow(Shift(op), [x] + row) == [x] + ApplyRow(op, row)
  {
    var xr := [x] + row;
    var L, R := ApplyRow(Shift(op), xr), [x] + ApplyRow(op, row);
    match op
    case Scale(c, u) =>
      forall k | 0 <= k < |xr|
        ensures L[k] == R[k]
      {}
    case Axpy(d, a, s) =>
      forall k | 0 <= k < |xr|
        ensures L[k] == R[k]
      {}
    case Mix(c0, c1, y1, y2, s, t) =>
      ShiftMix(c0, c1, y1, y2, s, t, x, row);
    case DotInto(c, v) =>
      ShiftDot(c, v, x, row);
  }

  lemma ShiftMix(c0: nat, c1: nat, y1: int, y2: int, s: int, t: int, x: int, row: seq<int>)
    requires c0 < |row| && c1 < |row| && c0 != c1
    ensures ApplyRow(Mix(c0 + 1, c1 + 1, y1, y2, s, t), [x] + row) == [x] + ApplyRow(Mix(c0, c1, y1, y2, s, t), row)
  {
    var xr := [x] + row;
    MixEntries(c0, c1, y1, y2, s, t, row);
    MixEntries(c0 + 1, c1 + 1, y1, y2, s, t, xr);
    var L, R := ApplyRow(Mix(c0 + 1, c1 + 1, y1, y2, s, t), xr), [x] + ApplyRow(Mix(c0, c1, y1, y2, s, t), row);
    forall k | 0 <= k < |xr|
      ensures L[k] == R[k]
    {
      if k > 0 {
        assert xr[k] == row[k - 1] && xr[c0 + 1] == row[c0] && xr[c1 + 1] == row[c1];
      }
    }
  }

  lemma ShiftDot(c: nat, v: seq<int>, x: int, row: seq<int>)
    requires c < |row| && |v| == |row|
    ensures ApplyRow(DotInto(c + 1, [0] + v), [x] + row) == [x] + ApplyRow(DotInto(c, v), row)
  {
    var xr := [x] + row;
    assert ([0] + v)[1..] == v && xr[1..] == row;
    assert Dot([0] + v, xr) == Dot(v, row);
    var L, R := xr[c + 1 := Dot(v, row)], [x] + row[c := Dot(v, row)];
    forall k | 0 <= k < |xr|
      ensures L[k] == R[k]
    {}
  }

  // ---------------------------------------------------------------------
  // Dot products
  // ---------------------------------------------------------------------

  lemma {:induction false} DotSnoc(a: seq<int>, b: seq<int>, x: int, y: int)
    requires |a| == |b|
    ensures Dot(a + [x], b + [y]) == Dot(a, b) + x * y
    decreases |a|
  {
    if |a| == 0 {
      assert a + [x] == [x] && b + [y] == [y];
    } else {
      assert (a + [x])[1..] == a[1..] + [x];
      assert (b + [y])[1..] == b[1..] + [y];
      DotSnoc(a[1..], b[1..], x, y);
    }
  }

  lemma {:induction false} DotScale(a: seq<int>, b: seq<int>, s: int)
    requires |a| == |b|
    ensures Dot(ScaleVec(a, s), b) == s * Dot(a, b)
    decreases |a|
  {
    if |a| > 0 {
      assert ScaleVec(a, s)[1..] == ScaleVec(a[1..], s);
      DotScale(a[1..], b[1..], s);
      assert (a[0] * s) * b[0] == s * (a[0] * b[0]);
      assert s * Dot(a, b) == s * (a[0] * b[0]) + s * Dot(a[1..], b[1..]);
    }
  }

  /** A common divisor of w divides every dot product against w. */
  lemma {:induction false} DotDivisor(d: int, v: seq<int>, w: seq<int>)
    requires |v| == |w| && CommonDivisor(d, w)
    ensures IsDivisor(d, Dot(v, w))
    decreases |v|
  {
    if |v| == 0 {
      DivisorSelf(d);
    } else {
      DotDivisor(d, v[1..], w[1..]);
      DivisorLinear(d, w[0], Dot(v[1..], w[1..]), v[0], 1);
    }
  }

  /** A dot product against the zero vector is zero. */
  lemma {:induction false} DotZero(v: seq<int>, w: seq<int>)
    requires |v| == |w| && forall k :: 0 <= k < |w| ==> w[k] == 0
    ensures Dot(v, w) == 0
    decreases |v|
  {
    if |v| > 0 {
      DotZero(v[1..], w[1..]);
    }
  }

  // ---------------------------------------------------------------------
  // Unimodularity of the elementary operations
  // ---------------------------------------------------------------------

  /** Each entry of the new row is a combination of the old entries. */
  lemma ApplyRowKeepsDivisor(op: ColOp, row: seq<int>, d: int)
    requires CommonDivisor(d, row)
    ensures CommonDivisor(d, ApplyRow(op, row))
  {
    match op
    case Scale(c, u) =>
      if c < |row| {
        DivisorMul(d, row[c], u);
        assert row[c] * u == u * row[c];
      }
    case Axpy(dst, a, src) =>
      if dst < |row| && src < |row| {
        DivisorLinear(d, row[dst], row[src], 1, a);
      }
    case Mix(c0, c1, y1, y2, s, t) =>
      if c0 < |row| && c1 < |row| {
        DivisorLinear(d, row[c0], row[c1], y1, y2);
        DivisorLinear(d, row[c0], row[c1], s, t);
      }
    case DotInto(c, v) =>
      if c < |row| && |v| == |row| {
        DotDivisor(d, v, row);
      }
  }

  /** Applying the inverse operation restores the row: the operation is unimodular. */
  lemma InverseRoundTrip(op: ColOp, row: seq<int>)
    requires Invertible(op, |row|)
    ensures Invertible(Inverse(op, |row|), |row|)
    ensures ApplyRow(Inverse(op, |row|), ApplyRow(op, row)) == row
  {
    match op
    case Scale(c, u) =>
      ScaleRoundTrip(c, u, row);
    case Axpy(dst, a, src) =>
      AxpyRoundTrip(dst, a, src, row);
    case Mix(c0, c1, y1, y2, s, t) =>
      MixInverse(y1, y2, s, t, 0, 0);
      MixRoundTrip(c0, c1, y1, y2, s, t, row);
    case DotInto(c, v) =>
      DotIntoInverse(c, v, row);
  }

  lemma ScaleRoundTrip(c: nat, u: int, row: seq<int>)
    requires c < |row| && IsUnit(u)
    ensures ApplyRow(Scale(c, Inv(u)), ApplyRow(Scale(c, u), row)) == row
  {
    var r1 := ApplyRow(Scale(c, u), row);
    var w := Inv(u);
    assert (row[c] * u) * w == row[c] * (w * u);
    assert r1[c := r1[c] * w] == row;
  }

  lemma AxpyRoundTrip(dst: nat, a: int, src: nat, row: seq<int>)
    requires dst < |row| && src < |row| && dst != src
    ensures ApplyRow(Axpy(dst, -a, src), ApplyRow(Axpy(dst, a, src), row)) == row
  {
    var r1 := ApplyRow(Axpy(dst, a, src), row);
    assert (-a) * row[src] == -(a * row[src]);
    assert r1[dst := r1[dst] + (-a) * r1[src]] == row;
  }

  lemma MixRoundTrip(c0: nat, c1: nat, y1: int, y2: int, s: int, t: int, row: seq<int>)
    requires Invertible(Mix(c0, c1, y1, y2, s, t), |row|)
    ensures ApplyRow(Mix(c0, c1, -t, y2, s, -y1), ApplyRow(Mix(c0, c1, y1, y2, s, t), row)) == row
  {
    var a, b := row[c0], row[c1];
    var r1 := ApplyRow(Mix(c0, c1, y1, y2, s, t), row);
    MixEntries(c0, c1, y1, y2, s, t, row);
    var r2 := ApplyRow(Mix(c0, c1, -t, y2, s, -y1), r1);
    MixEntries(c0, c1, -t, y2, s, -y1, r1);
    var n0, n1 := y1 * a + y2 * b, s * a + t * b;
    assert r1[c0] == n0 && r1[c1] == n1;
    MixInverse(y1, y2, s, t, a, b);
    assert (-t) * n0 + y2 * n1 == a && s * n0 + (-y1) * n1 == b;
    forall k | 0 <= k < |row|
      ensures r2[k] == row[k]
    {
      if k == c0 {
        assert r2[k] == (-t) * n0 + y2 * n1;
      } else if k == c1 {
        assert r2[k] == s * n0 + (-y1) * n1;
      }
    }
  }

  /** The entries of a row after a 2x2 combination of two distinct columns. */
  lemma MixEntries(c0: nat, c1: nat, y1: int, y2: int, s: int, t: int, row: seq<int>)
    requires c0 < |row| && c1 < |row| && c0 != c1
    ensures forall k :: 0 <= k < |row| ==>
      ApplyRow(Mix(c0, c1, y1, y2, s, t), row)[k] ==
        if k == c0 then y1 * row[c0] + y2 * row[c1]
        else if k == c1 then s * row[c0] + t * row[c1]
        else row[k]
  {}

  /** The 2x2 combination with determinant -1 is undone by its adjugate. */
  lemma MixInverse(y1: int, y2: int, s: int, t: int, x0: int, x1: int)
    requires y1 * t - y2 * s == -1
    ensures (-t) * (-y1) - y2 * s == -1
    ensures (-t) * (y1 * x0 + y2 * x1) + y2 * (s * x0 + t * x1) == x0
    ensures s * (y1 * x0 + y2 * x1) + (-y1) * (s * x0 + t * x1) == x1
  {
    var n0, n1 := y1 * x0 + y2 * x1, s * x0 + t * x1;
    assert (-t) * n0 == -(t * y1) * x0 - (t * y2) * x1;
    assert y2 * n1 == (y2 * s) * x0 + (y2 * t) * x1;
    assert (-t) * n0 + y2 * n1 == (y2 * s - t * y1) * x0;
    assert s * n0 == (s * y1) * x0 + (s * y2) * x1;
    assert (-y1) * n1 == -(y1 * s) * x0 - (y1 * t) * x1;
    assert s * n0 + (-y1) * n1 == (s * y2 - y1 * t) * x1;
  }

  lemma DotIntoInverse(c: nat, v: seq<int>, row: seq<int>)
    requires Invertible(DotInto(c, v), |row|)
    ensures Invertible(Inverse(DotInto(c, v), |row|), |row|)
    ensures ApplyRow(Inverse(DotInto(c, v), |row|), ApplyRow(DotInto(c, v), row)) == row
  {
    var D := Dot(v, row);
    var r1 := row[c := D];
    var w := ScaleVec(v, -1)[c := 1];
    assert Inverse(DotInto(c, v), |row|) == DotInto(c, w);
    DotUpdate(v, row, c, D);
    DotCoefficient(ScaleVec(v, -1), r1, c, 1);
    DotScale(v, r1, -1);
    assert Dot(w, r1) == row[c];
    assert r1[c := Dot(w, r1)] == row;
  }

  /** Changing one entry of w changes the dot product by that coefficient times the difference. */
  lemma {:induction false} DotUpdate(v: seq<int>, w: seq<int>, c: nat, y: int)
    requires |v| == |w| && c < |w|
    ensures Dot(v, w[c := y]) == Dot(v, w) + v[c] * (y - w[c])
    decreases |v|
  {
    if c > 0 {
      assert w[c := y][1..] == w[1..][c - 1 := y];
      DotUpdate(v[1..], w[1..], c - 1, y);
    } else {
      assert w[c := y][1..] == w[1..];
    }
  }

  /** Changing one coefficient of v changes the dot product by the difference times that entry. */
  lemma DotCoefficient(v: seq<int>, w: seq<int>, c: nat, a: int)
    requires |v| == |w| && c < |w|
    ensures Dot(v[c := a], w) == Dot(v, w) + (a - v[c]) * w[c]
  {
    DotSymmetric(v[c := a], w);
    DotSymmetric(v, w);
    DotUpdate(w, v, c, a);
  }

  lemma {:induction false} DotSymmetric(v: seq<int>, w: seq<int>)
    requires |v| == |w|
    ensures Dot(v, w) == Dot(w, v)
    decreases |v|
  {
    if |v| > 0 {
      DotSymmetric(v[1..], w[1..]);
    }
  }

  /** An invertible operation keeps exactly the common divisors of a row. */
  lemma ApplyRowSameDivisors(op: ColOp, row: seq<int>)
    requires Invertible(op, |row|)
    ensures forall d :: CommonDivisor(d, row) <==> CommonDivisor(d, ApplyRow(op, row))
  {
    forall d
      ensures CommonDivisor(d, row) <==> CommonDivisor(d, ApplyRow(op, row))
    {
      if CommonDivisor(d, row) {
        ApplyRowKeepsDivisor(op, row, d);
      }
      if CommonDivisor(d, ApplyRow(op, row)) {
        InverseRoundTrip(op, row);
        ApplyRowKeepsDivisor(Inverse(op, |row|), ApplyRow(op, row), d);
      }
    }
  }

  /** Lifting to matrices: the shape stays and every row keeps its divisors. */
  lemma ApplyColsInvertible(A: Matrix, op: ColOp)
    requires Rect(A) && |A| > 0 && Invertible(op, Cols(A))
    ensures Rect(ApplyCols(A, op)) && Cols(ApplyCols(A, op)) == Cols(A)
    ensures SameRowDivisors(A, ApplyCols(A, op))
  {
    var B := ApplyCols(A, op);
    forall i | 0 <= i < |A|
      ensures forall d :: CommonDivisor(d, A[i]) <==> CommonDivisor(d, B[i])
    {
      ApplyRowSameDivisors(op, A[i]);
    }
  }

  lemma SameRowDivisorsTrans(A: Matrix, B: Matrix, C: Matrix)
    requires SameRowDivisors(A, B) && SameRowDivisors(B, C)
    ensures SameRowDivisors(A, C)
  {}

  /** Keeping every row's divisors keeps the divisors of all entries. */
  lemma RowDivisorsToEntries(A: Matrix, B: Matrix)
    requires SameRowDivisors(A, B)
    ensures SameEntryDivisors(A, B)
  {}

  // ---------------------------------------------------------------------
  // Transposition
  // ---------------------------------------------------------------------

  lemma TransposeTwice(A: Matrix)
    requires Rect(A) && |A| > 0 && Cols(A) > 0
    ensures Transpose(Transpose(A)) == A
  {
    var T := Transpose(A);
    var TT := Transpose(T);
    assert |TT| == |A|;
    forall i | 0 <= i < |A|
      ensures TT[i] == A[i]
    {
      assert |TT[i]| == |A[i]|;
      forall j | 0 <= j < |A[i]|
        ensures TT[i][j] == A[i][j]
      {
        assert TT[i][j] == T[j][i];
      }
    }
  }

  /** The divisors of all entries do not depend on reading by rows or columns. */
  lemma TransposeEntryDivisors(A: Matrix)
    requires Rect(A)
    ensures SameEntryDivisors(A, Transpose(A))
  {
    var T := Transpose(A);
    forall d
      ensures AllDivisible(d, A) <==> AllDivisible(d, T)
    {
      if AllDivisible(d, A) {
        forall j, i | 0 <= j < |T| && 0 <= i < |T[j]|
          ensures IsDivisor(d, T[j][i])
        {
          assert T[j][i] == A[i][j];
        }
      }
      if AllDivisible(d, T) {
        forall i, j | 0 <= i < |A| && 0 <= j < |A[i]|
          ensures IsDivisor(d, A[i][j])
        {
          assert A[i][j] == T[j][i];
        }
      }
    }
  }
}
