/**
 SmithFormIliopoulos::smithFormIn and solve: after diagonalizationIn, the
 first min(rowdim, coldim) diagonal entries are rearranged by gcd steps into a
 divisibility chain d_0 | d_1 | ... and each is replaced by its normal form.
 */
module SmithForm {
  import opened Ints
  import opened Matrices
  import opened Diagonalization
  import opened Outcomes
  import opened Equivalence
  import opened DiagonalForm

  /** Product of all entries. */
  function Prod(s: seq<int>): int {
    if |s| == 0 then 1 else s[0] * Prod(s[1..])
  }

  /** Number of zero entries. */
  function ZeroCount(s: seq<int>): nat {
    if |s| == 0 then 0 else (if s[0] == 0 then 1 else 0) + ZeroCount(s[1..])
  }

  /** c divides every entry from position i on. */
  predicate DividesFrom(c: int, d: seq<int>, i: nat) {
    forall k :: i <= k < |d| ==> IsDivisor(c, d[k])
  }

  /** Each of the first i entries divides every later entry. */
  predicate ChainBelow(d: seq<int>, i: nat) {
    forall a, b :: 0 <= a < i && a < b < |d| ==> IsDivisor(d[a], d[b])
  }

  /** A divisibility chain d_0 | d_1 | ... | d_{n-1}. */
  predicate IsChain(d: seq<int>) {
    ChainBelow(d, |d|)
  }

  predicate NonNegative(d: seq<int>) {
    forall k :: 0 <= k < |d| ==> d[k] >= 0
  }

  // ---------------------------------------------------------------------
  // Products and zero counts under point updates
  // ---------------------------------------------------------------------

  lemma MulRegroup(a: int, p: int, b: int, q: int)
    ensures a * (p * b * q) == (a * p) * b * q
  {}

  lemma {:induction false} ProdAt(s: seq<int>, k: nat)
    requires k < |s|
    ensures Prod(s) == Prod(s[..k]) * s[k] * Prod(s[k + 1..])
    decreases k
  {
    if k > 0 {
      var t := s[1..];
      ProdAt(t, k - 1);
      assert t[..k - 1] == s[..k][1..];
      assert t[k..] == s[k + 1..];
      MulRegroup(s[0], Prod(t[..k - 1]), s[k], Prod(t[k..]));
    }
  }

  lemma MulSwapPair(p1: int, p2: int, p3: int, x: int, y: int, a: int, b: int)
    requires x * y == a * b
    ensures (p1 * x * p2) * y * p3 == (p1 * a * p2) * b * p3
  {
    assert (p1 * x * p2) * y * p3 == (p1 * p2 * p3) * (x * y);
    assert (p1 * a * p2) * b * p3 == (p1 * p2 * p3) * (a * b);
  }

  /** Replacing two entries by values with the same product keeps the product. */
  lemma ProdTwo(s: seq<int>, i: nat, j: nat, x: int, y: int)
    requires i < j < |s| && x * y == s[i] * s[j]
    ensures Prod(s[i := x][j := y]) == Prod(s)
  {
    var u := s[i := x][j := y];
    ProdAt(u, j);
    ProdAt(s, j);
    assert u[j + 1..] == s[j + 1..];
    var v, w := u[..j], s[..j];
    ProdAt(v, i);
    ProdAt(w, i);
    assert v[..i] == w[..i] && v[i + 1..] == w[i + 1..];
    MulSwapPair(Prod(w[..i]), Prod(w[i + 1..]), Prod(s[j + 1..]), x, y, s[i], s[j]);
  }

  lemma {:induction false} ZeroCountUpdate(s: seq<int>, k: nat, x: int)
    requires k < |s|
    ensures ZeroCount(s[k := x]) + (if s[k] == 0 then 1 else 0)
         == ZeroCount(s) + (if x == 0 then 1 else 0)
    decreases k
  {
    if k > 0 {
      assert s[k := x][1..] == s[1..][k - 1 := x];
      ZeroCountUpdate(s[1..], k - 1, x);
    }
  }

  // ---------------------------------------------------------------------
  // The double loop of smithFormIn (lines 461-486)
  // ---------------------------------------------------------------------

  /**
   The inner loop over j for a fixed i (lines 465-484): stop at a unit d_i,
   skip a zero d_j, swap a zero d_i with d_j, and otherwise replace
   (d_i, d_j) by (g, (d_j / g) * d_i) with g = gcd(d_j, d_i).
   */
  function ScanFrom(d: seq<int>, i: nat, j: nat): (r: seq<int>)
    requires i < j <= |d|
    requires forall k :: i < k < j ==> IsDivisor(d[i], d[k])
    ensures |r| == |d|
    ensures forall k :: 0 <= k < i ==> r[k] == d[k]
    ensures forall k :: i < k < |r| ==> IsDivisor(r[i], r[k])
    ensures forall c :: DividesFrom(c, d, i) <==> DividesFrom(c, r, i)
    ensures Prod(r) == Prod(d)
    ensures ZeroCount(r) == ZeroCount(d)
    decreases |d| - j
  {
    if j == |d| then d
    else if IsUnit(d[i]) then
      UnitHead(d, i);
      d
    else if d[j] == 0 then
      DivisorSelf(d[i]);
      ScanFrom(d, i, j + 1)
    else if d[i] == 0 then
      var e := d[i := d[j]][j := d[i]];
      SwapStep(d, i, j, e);
      ScanFrom(e, i, j + 1)
    else
      var g := Gcd(d[j], d[i]);
      var e := d[j := Div(d[j], g) * d[i]][i := g];
      GcdStep(d, i, j, g, e);
      ScanFrom(e, i, j + 1)
  }

  lemma UnitHead(d: seq<int>, i: nat)
    requires i < |d| && IsUnit(d[i])
    ensures forall k :: i < k < |d| ==> IsDivisor(d[i], d[k])
  {
    forall k | i < k < |d|
      ensures IsDivisor(d[i], d[k])
    {
      UnitDivides(d[i], d[k]);
    }
  }

  lemma SwapStep(d: seq<int>, i: nat, j: nat, e: seq<int>)
    requires i < j < |d| && d[i] == 0 && d[j] != 0 && e == d[i := d[j]][j := d[i]]
    requires forall k :: i < k < j ==> IsDivisor(d[i], d[k])
    ensures forall k :: i < k < j + 1 ==> IsDivisor(e[i], e[k])
    ensures forall c :: DividesFrom(c, d, i) <==> DividesFrom(c, e, i)
    ensures Prod(e) == Prod(d)
    ensures ZeroCount(e) == ZeroCount(d)
  {
    DivisorSelf(d[j]);
    forall c
      ensures DividesFrom(c, d, i) <==> DividesFrom(c, e, i)
    {
      if DividesFrom(c, d, i) {
        forall k | i <= k < |e|
          ensures IsDivisor(c, e[k])
        {
          assert e[k] == if k == i then d[j] else if k == j then d[i] else d[k];
        }
      }
      if DividesFrom(c, e, i) {
        forall k | i <= k < |d|
          ensures IsDivisor(c, d[k])
        {
          assert d[k] == if k == i then e[j] else if k == j then e[i] else e[k];
        }
      }
    }
    ProdTwo(d, i, j, d[j], d[i]);
    ZeroCountUpdate(d, i, d[j]);
    ZeroCountUpdate(d[i := d[j]], j, d[i]);
  }

  lemma GcdStep(d: seq<int>, i: nat, j: nat, g: int, e: seq<int>)
    requires i < j < |d| && d[i] != 0 && d[j] != 0 && g == Gcd(d[j], d[i])
    requires e == d[j := Div(d[j], g) * d[i]][i := g]
    requires forall k :: i < k < j ==> IsDivisor(d[i], d[k])
    ensures forall k :: i < k < j + 1 ==> IsDivisor(e[i], e[k])
    ensures forall c :: DividesFrom(c, d, i) <==> DividesFrom(c, e, i)
    ensures Prod(e) == Prod(d)
    ensures ZeroCount(e) == ZeroCount(d)
  {
    var q := Div(d[j], g);
    assert g != 0 && q * g == d[j];
    GcdStepChain(d, i, j, g, q, e);
    GcdStepDivisors(d, i, j, g, q, e);
    GcdStepCounts(d, i, j, g, q, e);
  }

  lemma GcdStepChain(d: seq<int>, i: nat, j: nat, g: int, q: int, e: seq<int>)
    requires i < j < |d| && IsDivisor(g, d[i]) && e == d[j := q * d[i]][i := g]
    requires forall k :: i < k < j ==> IsDivisor(d[i], d[k])
    ensures forall k :: i < k < j + 1 ==> IsDivisor(e[i], e[k])
  {
    DivisorMul(g, d[i], q);
    forall k | i < k < j
      ensures IsDivisor(e[i], e[k])
    {
      DivisorTrans(g, d[i], d[k]);
    }
  }

  lemma GcdStepDivisors(d: seq<int>, i: nat, j: nat, g: int, q: int, e: seq<int>)
    requires i < j < |d| && g == Gcd(d[j], d[i]) && q * g == d[j]
    requires e == d[j := q * d[i]][i := g]
    ensures forall c :: DividesFrom(c, d, i) <==> DividesFrom(c, e, i)
  {
    forall c
      ensures DividesFrom(c, d, i) <==> DividesFrom(c, e, i)
    {
      if DividesFrom(c, d, i) {
        assert IsDivisor(c, d[i]) && IsDivisor(c, d[j]);
        DivisorMul(c, d[i], q);
        forall k | i <= k < |e|
          ensures IsDivisor(c, e[k])
        {
          assert e[k] == if k == i then g else if k == j then q * d[i] else d[k];
        }
      }
      if DividesFrom(c, e, i) {
        assert IsDivisor(c, e[i]);
        DivisorTrans(c, g, d[i]);
        DivisorTrans(c, g, d[j]);
        forall k | i <= k < |d|
          ensures IsDivisor(c, d[k])
        {
          if k != i && k != j {
            assert d[k] == e[k];
          }
        }
      }
    }
  }

  lemma GcdStepCounts(d: seq<int>, i: nat, j: nat, g: int, q: int, e: seq<int>)
    requires i < j < |d| && d[i] != 0 && d[j] != 0 && g != 0 && q * g == d[j]
    requires e == d[j := q * d[i]][i := g]
    ensures Prod(e) == Prod(d)
    ensures ZeroCount(e) == ZeroCount(d)
  {
    var y := q * d[i];
    assert e == d[i := g][j := y];
    assert g * y == d[i] * d[j] by {
      assert g * (q * d[i]) == (q * g) * d[i];
    }
    ProdTwo(d, i, j, g, y);
    assert q != 0;
    MulAbsGe(q, d[i]);
    ZeroCountUpdate(d, i, g);
    ZeroCountUpdate(d[i := g], j, y);
  }

  /**
   The outer loop (lines 461-486): for each i, the inner scan followed by
   normalIn(d_i). The first i entries are already final.
   */
  function ScanAll(d: seq<int>, i: nat): (r: seq<int>)
    requires i <= |d|
    requires ChainBelow(d, i)
    requires forall a :: 0 <= a < i ==> d[a] >= 0
    ensures |r| == |d|
    ensures forall a :: 0 <= a < i ==> r[a] == d[a]
    ensures IsChain(r) && NonNegative(r)
    ensures forall c :: DividesFrom(c, d, i) <==> DividesFrom(c, r, i)
    ensures NormalIn(Prod(r)) == NormalIn(Prod(d))
    ensures ZeroCount(r) == ZeroCount(d)
    decreases |d| - i
  {
    if i == |d| then d
    else
      var d1 := ScanFrom(d, i, i + 1);
      var d2 := d1[i := NormalIn(d1[i])];
      ScanAllStep(d, i, d1, d2);
      ScanAll(d2, i + 1)
  }

  lemma ScanAllStep(d: seq<int>, i: nat, d1: seq<int>, d2: seq<int>)
    requires i < |d| && ChainBelow(d, i)
    requires forall a :: 0 <= a < i ==> d[a] >= 0
    requires d1 == ScanFrom(d, i, i + 1) && d2 == d1[i := NormalIn(d1[i])]
    ensures ChainBelow(d2, i + 1)
    ensures forall a :: 0 <= a < i + 1 ==> d2[a] >= 0
    ensures forall a :: 0 <= a < i ==> d2[a] == d[a]
    ensures forall c :: DividesFrom(c, d, i) <==> (IsDivisor(c, d2[i]) && DividesFrom(c, d2, i + 1))
    ensures NormalIn(Prod(d2)) == NormalIn(Prod(d))
    ensures ZeroCount(d2) == ZeroCount(d)
  {
    ScanAllChain(d, i, d1, d2);
    NormalizeEntryDivisors(d1, i);
    NormalizeEntry(d1, i);
  }

  /** normalIn on entry i does not change which elements divide the entries from i on. */
  lemma NormalizeEntryDivisors(s: seq<int>, i: nat)
    requires i < |s|
    ensures forall c :: DividesFrom(c, s, i) <==>
      (IsDivisor(c, s[i := NormalIn(s[i])][i]) && DividesFrom(c, s[i := NormalIn(s[i])], i + 1))
  {
    var t := s[i := NormalIn(s[i])];
    forall c
      ensures DividesFrom(c, s, i) <==> (IsDivisor(c, t[i]) && DividesFrom(c, t, i + 1))
    {
      DivisorNormal(c, s[i]);
      if DividesFrom(c, s, i) {
        forall k | i + 1 <= k < |t|
          ensures IsDivisor(c, t[k])
        {
          assert t[k] == s[k];
        }
      }
      if IsDivisor(c, t[i]) && DividesFrom(c, t, i + 1) {
        forall k | i <= k < |s|
          ensures IsDivisor(c, s[k])
        {
          if k > i {
            assert t[k] == s[k];
          }
        }
      }
    }
  }

  lemma ScanAllChain(d: seq<int>, i: nat, d1: seq<int>, d2: seq<int>)
    requires i < |d| && ChainBelow(d, i)
    requires d1 == ScanFrom(d, i, i + 1) && d2 == d1[i := NormalIn(d1[i])]
    ensures ChainBelow(d2, i + 1)
  {
    forall a, b | 0 <= a < i + 1 && a < b < |d2|
      ensures IsDivisor(d2[a], d2[b])
    {
      if a == i {
        DivisorNormal(d1[i], d1[b]);
      } else if b < i {
        assert d2[a] == d[a] && d2[b] == d[b];
      } else {
        assert DividesFrom(d[a], d, i);
        assert IsDivisor(d[a], d1[b]);
        DivisorNormal(d[a], d1[b]);
      }
    }
  }

  lemma MulNegMiddle(p: int, x: int, q: int)
    ensures p * (-x) * q == -(p * x * q)
  {}

  /** normalIn on one entry keeps the product up to sign and the zeros. */
  lemma NormalizeEntry(s: seq<int>, i: nat)
    requires i < |s|
    ensures NormalIn(Prod(s[i := NormalIn(s[i])])) == NormalIn(Prod(s))
    ensures ZeroCount(s[i := NormalIn(s[i])]) == ZeroCount(s)
  {
    var t := s[i := NormalIn(s[i])];
    ProdAt(s, i);
    ProdAt(t, i);
    assert t[..i] == s[..i] && t[i + 1..] == s[i + 1..];
    MulNegMiddle(Prod(s[..i]), s[i], Prod(s[i + 1..]));
    ZeroCountUpdate(s, i, NormalIn(s[i]));
  }

  /**
   The diagonal normalisation of smithFormIn. The result is a non-negative
   divisibility chain with the same common divisors, the same product up to
   sign and the same number of zeros as the input.
   */
  function Normalize(d: seq<int>): (r: seq<int>)
    ensures |r| == |d|
    ensures IsChain(r) && NonNegative(r)
    ensures forall c :: CommonDivisor(c, d) <==> CommonDivisor(c, r)
    ensures NormalIn(Prod(r)) == NormalIn(Prod(d))
    ensures ZeroCount(r) == ZeroCount(d)
  {
    var r := ScanAll(d, 0);
    assert forall c :: CommonDivisor(c, d) <==> DividesFrom(c, d, 0);
    assert forall c :: CommonDivisor(c, r) <==> DividesFrom(c, r, 0);
    r
  }

  /** Every step of the inner scan is a unimodular change of the diagonal matrix. */
  lemma {:induction false} ScanFromEquivalent(m: nat, n: nat, d: seq<int>, i: nat, j: nat)
    requires i < j <= |d| && |d| <= m && |d| <= n
    requires forall k :: i < k < j ==> IsDivisor(d[i], d[k])
    ensures Equivalent(DiagMatrix(m, n, d), DiagMatrix(m, n, ScanFrom(d, i, j)), Both)
    decreases |d| - j
  {
    if j == |d| || IsUnit(d[i]) {
      EquivalentRefl(DiagMatrix(m, n, d), Both);
    } else {
      var e := ScanStepEquivalent(m, n, d, i, j);
      ScanFromEquivalent(m, n, e, i, j + 1);
      EquivalentTrans(DiagMatrix(m, n, d), DiagMatrix(m, n, e), DiagMatrix(m, n, ScanFrom(e, i, j + 1)), Both);
    }
  }

  /** One iteration of the inner scan on a non-unit d_i: skip, swap or gcd step. */
  lemma ScanStepEquivalent(m: nat, n: nat, d: seq<int>, i: nat, j: nat) returns (e: seq<int>)
    requires i < j < |d| && |d| <= m && |d| <= n && !IsUnit(d[i])
    requires forall k :: i < k < j ==> IsDivisor(d[i], d[k])
    ensures |e| == |d| && forall k :: i < k < j + 1 ==> IsDivisor(e[i], e[k])
    ensures ScanFrom(d, i, j) == ScanFrom(e, i, j + 1)
    ensures Equivalent(DiagMatrix(m, n, d), DiagMatrix(m, n, e), Both)
  {
    if d[j] == 0 {
      DivisorSelf(d[i]);
      e := d;
      EquivalentRefl(DiagMatrix(m, n, d), Both);
    } else if d[i] == 0 {
      e := d[i := d[j]][j := d[i]];
      SwapStep(d, i, j, e);
      SwapEquivalent(m, n, d, i, j);
    } else {
      var g := Gcd(d[j], d[i]);
      e := d[j := Div(d[j], g) * d[i]][i := g];
      GcdStep(d, i, j, g, e);
      GcdEquivalent(m, n, d, i, j);
    }
  }

  /** The outer loop, including normalIn's sign change, keeps the diagonal matrix equivalent. */
  lemma {:induction false} ScanAllEquivalent(m: nat, n: nat, d: seq<int>, i: nat)
    requires i <= |d| && |d| <= m && |d| <= n
    requires ChainBelow(d, i)
    requires forall a :: 0 <= a < i ==> d[a] >= 0
    ensures Equivalent(DiagMatrix(m, n, d), DiagMatrix(m, n, ScanAll(d, i)), Both)
    decreases |d| - i
  {
    if i == |d| {
      EquivalentRefl(DiagMatrix(m, n, d), Both);
    } else {
      var d1 := ScanFrom(d, i, i + 1);
      var d2 := d1[i := NormalIn(d1[i])];
      ScanAllStep(d, i, d1, d2);
      ScanFromEquivalent(m, n, d, i, i + 1);
      if d1[i] < 0 {
        NegateEquivalent(m, n, d1, i);
      } else {
        assert d2 == d1;
        EquivalentRefl(DiagMatrix(m, n, d1), Columns);
      }
      EquivalentChain(DiagMatrix(m, n, d), DiagMatrix(m, n, d1), DiagMatrix(m, n, d2), Both, Columns);
      ScanAllEquivalent(m, n, d2, i + 1);
      EquivalentTrans(DiagMatrix(m, n, d), DiagMatrix(m, n, d2), DiagMatrix(m, n, ScanAll(d2, i + 1)), Both);
    }
  }

  /**
   The normalised diagonal describes a matrix unimodularly equivalent to the
   diagonal matrix it came from.
   */
  lemma NormalizeEquivalent(m: nat, n: nat, d: seq<int>)
    requires |d| <= m && |d| <= n
    ensures Equivalent(DiagMatrix(m, n, d), DiagMatrix(m, n, Normalize(d)), Both)
  {
    ScanAllEquivalent(m, n, d, 0);
  }

  /** A non-negative chain is left alone by the inner scan. */
  lemma {:induction false} ScanFromFixed(d: seq<int>, i: nat, j: nat)
    requires i < j <= |d| && NonNegative(d)
    requires forall k :: i < k < |d| ==> IsDivisor(d[i], d[k])
    ensures ScanFrom(d, i, j) == d
    decreases |d| - j
  {
    if j < |d| && !IsUnit(d[i]) {
      if d[j] == 0 {
        DivisorSelf(d[i]);
        ScanFromFixed(d, i, j + 1);
      } else {
        assert d[i] != 0;
        var g := Gcd(d[j], d[i]);
        DivisorSelf(d[i]);
        DivisorAntisym(g, d[i]);
        assert Div(d[j], g) * d[i] == d[j];
        assert d[j := Div(d[j], g) * d[i]][i := g] == d;
        ScanFromFixed(d, i, j + 1);
      }
    }
  }

  lemma {:induction false} ScanAllFixed(d: seq<int>, i: nat)
    requires i <= |d| && IsChain(d) && NonNegative(d)
    ensures ScanAll(d, i) == d
    decreases |d| - i
  {
    if i < |d| {
      ScanFromFixed(d, i, i + 1);
      assert d[i := NormalIn(d[i])] == d;
      ScanAllFixed(d, i + 1);
    }
  }

  /** Normalisation leaves a non-negative divisibility chain unchanged. */
  lemma NormalizeFixesChains(d: seq<int>)
    requires IsChain(d) && NonNegative(d)
    ensures Normalize(d) == d
  {
    ScanAllFixed(d, 0);
  }

  /** Normalisation is idempotent. */
  lemma NormalizeIdempotent(d: seq<int>)
    ensures Normalize(Normalize(d)) == Normalize(d)
  {
    NormalizeFixesChains(Normalize(d));
  }

  // ---------------------------------------------------------------------
  // smithFormIn and solve
  // ---------------------------------------------------------------------

  /** B with its first |d| diagonal entries replaced by d. */
  function SetDiagonal(B: Matrix, d: seq<int>): (C: Matrix)
    requires Rect(B) && |d| <= |B| && |d| <= Cols(B)
    ensures Rect(C) && |C| == |B| && Cols(C) == Cols(B)
    ensures forall i, j :: 0 <= i < |C| && 0 <= j < |C[i]| && i != j ==> C[i][j] == B[i][j]
  {
    seq(|B|, i requires 0 <= i < |B| => if i < |d| then B[i][i := d[i]] else B[i])
  }

  /** Reading back the diagonal that was written. */
  lemma DiagonalOfSetDiagonal(B: Matrix, d: seq<int>)
    requires Rect(B) && |d| <= |B| && |d| <= Cols(B)
    ensures Diagonal(SetDiagonal(B, d), |d|) == d
  {}

  /** Writing back the diagonal that was read changes nothing. */
  lemma SetDiagonalOfDiagonal(B: Matrix, m: nat)
    requires Rect(B) && m <= |B| && m <= Cols(B)
    ensures SetDiagonal(B, Diagonal(B, m)) == B
  {
    var C := SetDiagonal(B, Diagonal(B, m));
    forall i | 0 <= i < |B|
      ensures C[i] == B[i]
    {}
  }

  /**
   In a reduced matrix the common divisors of all entries are exactly the
   common divisors of the diagonal.
   */
  lemma ReducedDivisors(B: Matrix)
    requires Reduced(B)
    ensures forall c :: AllDivisible(c, B) <==> CommonDivisor(c, Diagonal(B, Min(|B|, Cols(B))))
  {
    var m := Min(|B|, Cols(B));
    forall c | CommonDivisor(c, Diagonal(B, m))
      ensures AllDivisible(c, B)
    {
      forall i, j | 0 <= i < |B| && 0 <= j < |B[i]|
        ensures IsDivisor(c, B[i][j])
      {
        if j < i {
          DivisorSelf(c);
        } else if j == i {
          assert B[i][j] == Diagonal(B, m)[i];
        } else {
          assert IsDivisor(c, Diagonal(B, m)[i]);
          DivisorTrans(c, B[i][i], B[i][j]);
        }
      }
    }
    forall c | AllDivisible(c, B)
      ensures CommonDivisor(c, Diagonal(B, m))
    {
      forall i | 0 <= i < m
        ensures IsDivisor(c, Diagonal(B, m)[i])
      {
        assert CommonDivisor(c, B[i]);
      }
    }
  }

  /**
   smithFormIn: diagonalizationIn, then the normalisation of the first
   min(rowdim, coldim) diagonal entries. Only those entries change; they
   form a non-negative divisibility chain whose common divisors are the
   common divisors of all entries of A.
   */
  function SmithFormIn(A: Matrix, fuel: nat): (r: Option<Matrix>)
    requires Rect(A)
    ensures r.Some? <==> DiagonalizationIn(A, fuel).Some?
    ensures r.Some? ==> Rect(r.value) && |r.value| == |A| && Cols(r.value) == Cols(A)
    ensures r.Some? ==> forall i, j :: 0 <= i < |A| && 0 <= j < Cols(A) && i != j ==>
      r.value[i][j] == DiagonalizationIn(A, fuel).value[i][j]
    ensures r.Some? ==> forall i, j :: 0 <= j < i < |A| && j < Cols(A) ==> r.value[i][j] == 0
    ensures r.Some? ==> IsChain(Diagonal(r.value, Min(|A|, Cols(A))))
    ensures r.Some? ==> NonNegative(Diagonal(r.value, Min(|A|, Cols(A))))
    ensures r.Some? ==> forall c :: AllDivisible(c, A) <==> CommonDivisor(c, Diagonal(r.value, Min(|A|, Cols(A))))
    ensures r.Some? ==> Equivalent(A, DiagMatrix(|A|, Cols(A), Diagonal(r.value, Min(|A|, Cols(A)))), Both)
  {
    match DiagonalizationIn(A, fuel)
    case None => None
    case Some(D) =>
      var C := SetDiagonal(D, Normalize(Diagonal(D, Min(|D|, Cols(D)))));
      SmithFormFacts(A, D, C);
      Some(C)
  }

  /** What smithFormIn's rewrite of the diagonal of a reduced D, equivalent to A, achieves. */
  lemma SmithFormFacts(A: Matrix, D: Matrix, C: Matrix)
    requires Rect(A) && |D| == |A| && Cols(D) == Cols(A)
    requires Reduced(D) && SameEntryDivisors(A, D) && Equivalent(A, D, Both)
    requires C == SetDiagonal(D, Normalize(Diagonal(D, Min(|D|, Cols(D)))))
    ensures Rect(C) && |C| == |A| && Cols(C) == Cols(A)
    ensures forall i, j :: 0 <= i < |A| && 0 <= j < Cols(A) && i != j ==> C[i][j] == D[i][j]
    ensures forall i, j :: 0 <= j < i < |A| && j < Cols(A) ==> C[i][j] == 0
    ensures IsChain(Diagonal(C, Min(|A|, Cols(A)))) && NonNegative(Diagonal(C, Min(|A|, Cols(A))))
    ensures forall c :: AllDivisible(c, A) <==> CommonDivisor(c, Diagonal(C, Min(|A|, Cols(A))))
    ensures Equivalent(A, DiagMatrix(|A|, Cols(A), Diagonal(C, Min(|A|, Cols(A)))), Both)
  {
    var d := Normalize(Diagonal(D, Min(|D|, Cols(D))));
    ReducedDivisors(D);
    DiagonalOfSetDiagonal(D, d);
    SmithFormEquivalent(A, D, d);
  }

  /**
   A reaches D by unimodular steps, D reaches its diagonal by column steps,
   and the normalisation moves between diagonal matrices by further steps.
   */
  lemma SmithFormEquivalent(A: Matrix, D: Matrix, d: seq<int>)
    requires Rect(A) && Reduced(D) && Equivalent(A, D, Both)
    requires d == Normalize(Diagonal(D, Min(|D|, Cols(D))))
    ensures |D| == |A| && Cols(D) == Cols(A)
    ensures Equivalent(A, DiagMatrix(|A|, Cols(A), d), Both)
  {
    EquivalentShape(A, D, Both);
    var m := Min(|D|, Cols(D));
    ReducedEquivalent(D);
    NormalizeEquivalent(|D|, Cols(D), Diagonal(D, m));
    EquivalentChain(D, DiagMatrix(|D|, Cols(D), Diagonal(D, m)), DiagMatrix(|D|, Cols(D), d), Columns, Both);
    EquivalentTrans(A, D, DiagMatrix(|A|, Cols(A), d), Both);
  }

  /** Absolute value of the product of the invariant factors equals that of the diagonal before normalisation. */
  lemma SmithFormProduct(A: Matrix, fuel: nat)
    requires Rect(A) && SmithFormIn(A, fuel).Some?
    ensures var m := Min(|A|, Cols(A));
      NormalIn(Prod(Diagonal(SmithFormIn(A, fuel).value, m)))
        == NormalIn(Prod(Diagonal(DiagonalizationIn(A, fuel).value, m)))
  {
    var D := DiagonalizationIn(A, fuel).value;
    var m := Min(|D|, Cols(D));
    DiagonalOfSetDiagonal(D, Normalize(Diagonal(D, m)));
  }

  /** getEntry(i, i) for i < n; an index past the stored entries is an error. */
  function ReadDiagonal(B: Matrix, n: nat): (r: Result<seq<int>>)
    requires Rect(B)
    ensures r.Ok? <==> n <= |B| && n <= Cols(B)
    ensures r.Ok? ==> |r.value| == n && forall i :: 0 <= i < n ==> r.value[i] == B[i][i]
  {
    if n <= |B| && n <= Cols(B) then Ok(Diagonal(B, n)) else Err("entry out of range")
  }

  /**
   solve as written (lines 434-443): rowdim() entries B[i][i] are read
   from the Smith form of a copy of A.
   */
  function SolveAsWritten(A: Matrix, fuel: nat): (r: Result<seq<int>>)
    requires Rect(A)
    ensures r.Ok? ==> |r.value| == |A|
    ensures SmithFormIn(A, fuel).None? ==> r.Err?
    ensures SmithFormIn(A, fuel).Some? && |A| <= Cols(A) ==> r.Ok? && Some(r.value) == Solve(A, fuel)
  {
    match SmithFormIn(A, fuel)
    case None => Err("no convergence")
    case Some(B) => ReadDiagonal(B, |B|)
  }

  /** With more rows than columns the read of B[coldim][coldim] is out of range. */
  lemma SolveAsWrittenTall(A: Matrix, fuel: nat)
    requires Rect(A) && |A| > Cols(A) && SmithFormIn(A, fuel).Some?
    ensures SolveAsWritten(A, fuel) == Err("entry out of range")
  {}

  /**
   solve with the read bounded by min(rowdim, coldim): the invariant
   factors of A, a non-negative divisibility chain whose common divisors
   are exactly those of the entries of A.
   */
  function Solve(A: Matrix, fuel: nat): (r: Option<seq<int>>)
    requires Rect(A)
    ensures r.Some? <==> SmithFormIn(A, fuel).Some?
    ensures r.Some? ==> |r.value| == Min(|A|, Cols(A))
    ensures r.Some? ==> IsChain(r.value) && NonNegative(r.value)
    ensures r.Some? ==> forall c :: AllDivisible(c, A) <==> CommonDivisor(c, r.value)
    ensures r.Some? ==> Equivalent(A, DiagMatrix(|A|, Cols(A), r.value), Both)
  {
    match SmithFormIn(A, fuel)
    case None => None
    case Some(B) => Some(Diagonal(B, Min(|B|, Cols(B))))
  }

  /** The first invariant factor is the non-negative gcd of all entries of A. */
  lemma FirstFactorIsGcd(A: Matrix, fuel: nat)
    requires Rect(A) && |A| >= 1 && Cols(A) >= 1 && Solve(A, fuel).Some?
    ensures var f := Solve(A, fuel).value;
      && f[0] >= 0
      && AllDivisible(f[0], A)
      && forall c :: AllDivisible(c, A) ==> IsDivisor(c, f[0])
  {
    var f := Solve(A, fuel).value;
    assert CommonDivisor(f[0], f) by {
      forall k | 0 <= k < |f|
        ensures IsDivisor(f[0], f[k])
      {
        if k == 0 {
          DivisorSelf(f[0]);
        }
      }
    }
  }
}
