/**
 VectorTraits and VectorWrapper: the category each STL container is given,
 and element access (ref, constRef) and resizing (ensureDim) dispatched on
 that category. Elements are integers; the zero an absent sparse entry
 stands for is 0.
 */
module VectorTraits {
  import opened Outcomes

  /** The element type of a container: a plain element, or a pair<size_t, Element>. */
  datatype Elem = Plain | IndexPair

  /** The container types the traits are specialised for; map is map<size_t, Element>. */
  datatype VectorType = StdVector(elem: Elem) | StdList(elem: Elem) | StdDeque(elem: Elem) | StdMap

  datatype Category = Dense | SparseSequence | SparseAssociative

  /**
   The specialisations at lines 76-98. Any other type falls to the primary
   template, which takes the category from the vector class itself; for
   the STL types here that means there is none (None).
   */
  function CategoryOf(t: VectorType): (c: Option<Category>)
    ensures c == Some(Dense) <==> t == StdVector(Plain)
    ensures c == Some(SparseSequence) <==> (t.StdVector? || t.StdList? || t.StdDeque?) && t.elem == IndexPair
    ensures c == Some(SparseAssociative) <==> t == StdMap
  {
    match t
    case StdVector(Plain) => Some(Dense)
    case StdVector(IndexPair) => Some(SparseSequence)
    case StdList(IndexPair) => Some(SparseSequence)
    case StdDeque(IndexPair) => Some(SparseSequence)
    case StdMap => Some(SparseAssociative)
    case _ => None
  }

  /** Strictly increasing indices, the invariant of a sparse-sequence vector. */
  predicate Sorted(s: seq<(nat, int)>) {
    forall a, b :: 0 <= a < b < |s| ==> s[a].0 < s[b].0
  }

  /** Index i has a stored pair. */
  predicate Present(s: seq<(nat, int)>, i: nat) {
    exists k :: 0 <= k < |s| && s[k].0 == i
  }

  /** The value the sparse sequence gives index i: the stored one, or zero. */
  function Lookup(s: seq<(nat, int)>, i: nat): int {
    if |s| == 0 then 0 else if s[0].0 == i then s[0].1 else Lookup(s[1..], i)
  }

  lemma {:induction false} LookupAt(s: seq<(nat, int)>, p: nat)
    requires Sorted(s) && p < |s|
    ensures Lookup(s, s[p].0) == s[p].1
    decreases p
  {
    if p > 0 {
      assert s[0].0 < s[p].0;
      LookupAt(s[1..], p - 1);
    }
  }

  lemma {:induction false} LookupAbsent(s: seq<(nat, int)>, i: nat)
    requires !Present(s, i)
    ensures Lookup(s, i) == 0
    decreases |s|
  {
    if |s| > 0 {
      assert s[0].0 != i;
      assert forall k :: 0 <= k < |s[1..]| ==> s[1..][k] == s[k + 1];
      LookupAbsent(s[1..], i);
    }
  }

  /** The loop at lines 116 and 148: the first position whose index is not below i. */
  function FindPos(s: seq<(nat, int)>, i: nat): (j: nat)
    ensures j <= |s|
    ensures forall k :: 0 <= k < j ==> s[k].0 < i
    ensures j < |s| ==> s[j].0 >= i
  {
    if |s| == 0 || s[0].0 >= i then 0 else 1 + FindPos(s[1..], i)
  }

  /** In a sorted sequence the scan stops on i exactly when i is present. */
  lemma FindPosPresent(s: seq<(nat, int)>, i: nat)
    ensures var j := FindPos(s, i); Sorted(s) ==> (Present(s, i) <==> j < |s| && s[j].0 == i)
  {
    var j := FindPos(s, i);
    if Sorted(s) && Present(s, i) {
      var k :| 0 <= k < |s| && s[k].0 == i;
      assert j <= k;
      assert j < |s| && s[j].0 <= s[k].0;
    }
  }

  /** A vector value of each category. */
  datatype Vec = DenseVec(d: seq<int>) | SparseSeq(s: seq<(nat, int)>) | SparseMap(m: map<nat, int>)

  /** The category a value is dispatched on. */
  function CategoryOfVec(v: Vec): Category {
    match v
    case DenseVec(_) => Dense
    case SparseSeq(_) => SparseSequence
    case SparseMap(_) => SparseAssociative
  }

  /** Entry i of the vector as a mathematical vector (absent entries are zero). */
  function Value(v: Vec, i: nat): int {
    match v
    case DenseVec(d) => if i < |d| then d[i] else 0
    case SparseSeq(s) => Lookup(s, i)
    case SparseMap(m) => if i in m then m[i] else 0
  }

  /** The representation invariant: sparse sequences are sorted. */
  predicate WellFormed(v: Vec) {
    v.SparseSeq? ==> Sorted(v.s)
  }

  /** Dense access needs the index in range; the sparse kinds take any index. */
  predicate Accessible(v: Vec, i: nat) {
    v.DenseVec? ==> i < |v.d|
  }

  /**
   Sparse-sequence ref (lines 109-125): scan to the first index not below i;
   if i is not there, insert (i, 0) at that point. Returns the container and
   the position of the pair the reference denotes.
   */
  function SparseRef(s: seq<(nat, int)>, i: nat): (r: (seq<(nat, int)>, nat))
    ensures r.1 < |r.0| && r.0[r.1].0 == i
    ensures Sorted(s) ==> Sorted(r.0)
    ensures Sorted(s) && Present(s, i) ==> r.0 == s
    ensures Sorted(s) && !Present(s, i) ==>
      |r.0| == |s| + 1 && r.0[r.1] == (i, 0) && r.0[..r.1] == s[..r.1] && r.0[r.1 + 1..] == s[r.1..]
  {
    var j := FindPos(s, i);
    if j == |s| || s[j].0 > i then
      var s' := s[..j] + [(i, 0)] + s[j..];
      SparseInsertSorted(s, i, j, s');
      FindPosPresent(s, i);
      (s', j)
    else
      FindPosPresent(s, i);
      (s, j)
  }

  lemma SparseInsertSorted(s: seq<(nat, int)>, i: nat, j: nat, s': seq<(nat, int)>)
    requires j == FindPos(s, i) && (j == |s| || s[j].0 > i)
    requires s' == s[..j] + [(i, 0)] + s[j..]
    ensures Sorted(s) ==> Sorted(s')
  {
    if Sorted(s) {
      forall a, b | 0 <= a < b < |s'|
        ensures s'[a].0 < s'[b].0
      {
        if b < j || a > j {
        } else if a == j {
          assert s'[b] == s[b - 1];
          assert s[j].0 <= s[b - 1].0;
        } else if b == j {
        } else {
          assert s'[b] == s[b - 1] && s[j].0 <= s[b - 1].0;
        }
      }
    }
  }

  /** An inserted (i, 0) changes no entry of the mathematical vector. */
  lemma SparseInsertKeepsValues(s: seq<(nat, int)>, i: nat)
    requires Sorted(s) && !Present(s, i)
    ensures forall k :: Lookup(SparseRef(s, i).0, k) == Lookup(s, k)
  {
    var (s', j) := SparseRef(s, i);
    forall k
      ensures Lookup(s', k) == Lookup(s, k)
    {
      InsertLookup(s, s', i, j, k);
    }
  }

  lemma InsertLookup(s: seq<(nat, int)>, s': seq<(nat, int)>, i: nat, j: nat, k: nat)
    requires Sorted(s) && Sorted(s') && !Present(s, i)
    requires |s'| == |s| + 1 && j < |s'| && s'[j] == (i, 0)
    requires s'[..j] == s[..j] && s'[j + 1..] == s[j..]
    ensures Lookup(s', k) == Lookup(s, k)
  {
    InsertPositions(s, s', j);
    if k == i {
      LookupAt(s', j);
      LookupAbsent(s, i);
    } else if Present(s, k) {
      var p :| 0 <= p < |s| && s[p].0 == k;
      var p' := if p < j then p else p + 1;
      assert s'[p'] == s[p];
      LookupAt(s, p);
      LookupAt(s', p');
    } else {
      LookupAbsent(s, k);
      LookupAbsent(s', k);
    }
  }

  /** Entries before position j stay in place; entries from j on move up by one. */
  lemma InsertPositions(s: seq<(nat, int)>, s': seq<(nat, int)>, j: nat)
    requires |s'| == |s| + 1 && j < |s'|
    requires s'[..j] == s[..j] && s'[j + 1..] == s[j..]
    ensures forall p :: 0 <= p < j ==> s'[p] == s[p]
    ensures forall p :: j < p < |s'| ==> s'[p] == s[p - 1]
  {
    assert forall p :: 0 <= p < j ==> s'[p] == s'[..j][p] == s[..j][p] == s[p];
    assert forall p :: j < p < |s'| ==> s'[p] == s'[j + 1..][p - j - 1] == s[j..][p - j - 1] == s[p - 1];
  }

  /**
   ref (lines 104-132): the container after taking the reference, and the
   value the reference reads. Dense and associative access is v[i]; the
   map's operator[] inserts a zero for an absent key.
   */
  function Ref(v: Vec, i: nat): (r: (Vec, int))
    requires Accessible(v, i)
    ensures CategoryOfVec(r.0) == CategoryOfVec(v)
    ensures WellFormed(v) ==> WellFormed(r.0)
    ensures WellFormed(v) ==> r.1 == Value(v, i)
    ensures WellFormed(v) ==> forall k :: Value(r.0, k) == Value(v, k)
    ensures v.DenseVec? ==> r.0 == v
    ensures v.SparseSeq? && Sorted(v.s) && Present(v.s, i) ==> r.0 == v
    ensures v.SparseSeq? && Sorted(v.s) && !Present(v.s, i) ==> |r.0.s| == |v.s| + 1
    ensures v.SparseMap? ==> r.0.m.Keys == v.m.Keys + {i}
  {
    match v
    case DenseVec(d) => (v, d[i])
    case SparseSeq(s) =>
      var (s', j) := SparseRef(s, i);
      RefSparseFacts(s, i);
      (SparseSeq(s'), s'[j].1)
    case SparseMap(m) =>
      if i in m then (v, m[i]) else (SparseMap(m[i := 0]), 0)
  }

  lemma RefSparseFacts(s: seq<(nat, int)>, i: nat)
    ensures Sorted(s) ==> SparseRef(s, i).0[SparseRef(s, i).1].1 == Lookup(s, i)
    ensures Sorted(s) ==> forall k :: Lookup(SparseRef(s, i).0, k) == Lookup(s, k)
  {
    var (s', j) := SparseRef(s, i);
    if !Sorted(s) {
    } else if Present(s, i) {
      LookupAt(s, j);
    } else {
      SparseInsertKeepsValues(s, i);
      LookupAt(s', j);
    }
  }

  /**
   constRef (lines 136-163): the container afterwards and the value read.
   The sparse-sequence version returns zero for an absent index without
   inserting; the associative version uses the map's operator[], which
   does insert a zero.
   */
  function ConstRef(v: Vec, i: nat): (r: (Vec, int))
    requires Accessible(v, i)
    ensures WellFormed(v) ==> r.1 == Value(v, i)
    ensures !v.SparseMap? ==> r.0 == v
    ensures v.SparseMap? ==> r.0.SparseMap? && r.0.m.Keys == v.m.Keys + {i}
    ensures forall k :: Value(r.0, k) == Value(v, k)
  {
    match v
    case DenseVec(d) => (v, d[i])
    case SparseSeq(s) =>
      var j := FindPos(s, i);
      ConstRefSparseFacts(s, i);
      if j == |s| || s[j].0 > i then (v, 0) else (v, s[j].1)
    case SparseMap(m) =>
      if i in m then (v, m[i]) else (SparseMap(m[i := 0]), 0)
  }

  lemma ConstRefSparseFacts(s: seq<(nat, int)>, i: nat)
    ensures var j := FindPos(s, i);
      Sorted(s) ==> Lookup(s, i) == if j == |s| || s[j].0 > i then 0 else s[j].1
  {
    var j := FindPos(s, i);
    if Sorted(s) {
      FindPosPresent(s, i);
      if j == |s| || s[j].0 > i {
        LookupAbsent(s, i);
      } else {
        LookupAt(s, j);
      }
    }
  }

  /** Writing x through the reference ref(v, i) returns. */
  function WriteRef(v: Vec, i: nat, x: int): (w: Vec)
    requires Accessible(v, i)
  {
    match v
    case DenseVec(d) => DenseVec(d[i := x])
    case SparseSeq(s) =>
      var (s', j) := SparseRef(s, i);
      SparseSeq(s'[j := (i, x)])
    case SparseMap(m) => SparseMap(m[i := x])
  }

  /**
   Writing through ref then reading gives the written value, every other
   entry keeps its value, and the representation invariant is kept.
   */
  lemma WriteRefRoundTrip(v: Vec, i: nat, x: int)
    requires WellFormed(v) && Accessible(v, i)
    ensures WellFormed(WriteRef(v, i, x))
    ensures Value(WriteRef(v, i, x), i) == x
    ensures forall k :: k != i ==> Value(WriteRef(v, i, x), k) == Value(v, k)
  {
    if v.SparseSeq? {
      var (s', j) := SparseRef(v.s, i);
      RefSparseFacts(v.s, i);
      SparseOverwrite(s', j, x);
    }
  }

  /** Overwriting the value of a stored pair changes that index only. */
  lemma SparseOverwrite(s: seq<(nat, int)>, j: nat, x: int)
    requires Sorted(s) && j < |s|
    ensures Sorted(s[j := (s[j].0, x)])
    ensures Lookup(s[j := (s[j].0, x)], s[j].0) == x
    ensures forall k :: k != s[j].0 ==> Lookup(s[j := (s[j].0, x)], k) == Lookup(s, k)
  {
    var i := s[j].0;
    var s' := s[j := (i, x)];
    assert forall p :: 0 <= p < |s'| ==> s'[p].0 == s[p].0;
    assert Sorted(s');
    LookupAt(s', j);
    forall k | k != i
      ensures Lookup(s', k) == Lookup(s, k)
    {
      if Present(s, k) {
        var p :| 0 <= p < |s| && s[p].0 == k;
        assert s'[p] == s[p];
        LookupAt(s, p);
        LookupAt(s', p);
      } else {
        LookupAbsent(s, k);
        LookupAbsent(s', k);
      }
    }
  }

  /**
   ensureDim (lines 167-181): a dense vector is resized to n, new entries
   zero; the sparse kinds are left as they are.
   */
  function EnsureDim(v: Vec, n: nat): (w: Vec)
    ensures v.DenseVec? ==> w.DenseVec? && |w.d| == n
    ensures v.DenseVec? ==> forall k :: 0 <= k < n && k < |v.d| ==> w.d[k] == v.d[k]
    ensures v.DenseVec? ==> forall k :: |v.d| <= k < n ==> w.d[k] == 0
    ensures !v.DenseVec? ==> w == v
  {
    match v
    case DenseVec(d) =>
      DenseVec(if n <= |d| then d[..n] else d + seq(n - |d|, _ => 0))
    case _ => v
  }
}
