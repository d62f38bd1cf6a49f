/**
 The pure parts of the smith example driver: run-length encoding of the
 invariant factors (distinct), the power cache and token reader used for
 Krattenthaler matrices (pwrlist, qread), the expansion of the local
 algorithm's (count, value) list, the choice of algorithm by name, and the
 list reported by the ilio branch.
 */
module SmithExample {
  import opened Matrices
  import opened SmithForm
  import opened Outcomes
  import opened DiagonalForm

  // ---------------------------------------------------------------------
  // distinct: run-length encoding
  // ---------------------------------------------------------------------

  /** n copies of x. */
  function Repeat<T>(x: T, n: nat): (s: seq<T>)
    ensures |s| == n && forall k :: 0 <= k < n ==> s[k] == x
  {
    if n == 0 then [] else Repeat(x, n - 1) + [x]
  }

  /** The sequence a list of (value, count) runs stands for. */
  function Expand<T>(runs: seq<(T, nat)>): seq<T> {
    if |runs| == 0 then [] else Repeat(runs[0].0, runs[0].1) + Expand(runs[1..])
  }

  /** Sum of the counts. */
  function Total<T>(runs: seq<(T, nat)>): nat {
    if |runs| == 0 then 0 else runs[0].1 + Total(runs[1..])
  }

  /** Every count is positive and neighbouring runs have different values. */
  predicate WellFormedRuns<T(==)>(runs: seq<(T, nat)>) {
    (forall k :: 0 <= k < |runs| ==> runs[k].1 >= 1) &&
    (forall k :: 0 <= k < |runs| - 1 ==> runs[k].0 != runs[k + 1].0)
  }

  lemma {:induction false} ExpandSnoc<T>(runs: seq<(T, nat)>, r: (T, nat))
    ensures Expand(runs + [r]) == Expand(runs) + Repeat(r.0, r.1)
    decreases |runs|
  {
    if |runs| == 0 {
      assert Expand([r]) == Repeat(r.0, r.1) + Expand<T>([]);
    } else {
      assert (runs + [r])[1..] == runs[1..] + [r];
      ExpandSnoc(runs[1..], r);
    }
  }

  /** The counts add up to the length of the expansion. */
  lemma {:induction false} ExpandLength<T>(runs: seq<(T, nat)>)
    ensures |Expand(runs)| == Total(runs)
    decreases |runs|
  {
    if |runs| > 0 {
      ExpandLength(runs[1..]);
    }
  }

  /**
   distinct (lines 540-557): append to c the runs of equal neighbours of s,
   as (value, count) pairs in order. An empty s appends nothing.
   */
  method Distinct<T(==)>(s: seq<T>, c: seq<(T, nat)>) returns (c': seq<(T, nat)>)
    ensures |c'| >= |c| && c'[..|c|] == c
    ensures |s| == 0 ==> c' == c
    ensures WellFormedRuns(c'[|c|..])
    ensures Expand(c'[|c|..]) == s
  {
    if |s| == 0 {
      return c;
    }
    var runs := Runs(s);
    c' := c + runs;
    assert c'[|c|..] == runs;
  }

  /** The runs of equal neighbours of a non-empty s, counted in one pass. */
  method Runs<T(==)>(s: seq<T>) returns (runs: seq<(T, nat)>)
    requires |s| > 0
    ensures WellFormedRuns(runs) && Expand(runs) == s
  {
    runs := [];
    var e := s[0];
    var count: nat := 1;
    var a := 1;
    while a < |s|
      invariant 1 <= a <= |s| && 1 <= count
      invariant WellFormedRuns(runs)
      invariant |runs| > 0 ==> runs[|runs| - 1].0 != e
      invariant Expand(runs) + Repeat(e, count) == s[..a]
    {
      assert s[..a + 1] == s[..a] + [s[a]];
      if s[a] == e {
        ExtendRun(runs, e, count, s[..a]);
        count := count + 1;
      } else {
        StartRun(runs, e, count, s[..a], s[a]);
        runs := runs + [(e, count)];
        e := s[a];
        count := 1;
      }
      a := a + 1;
    }
    CloseRun(runs, e, count, s[..a]);
    runs := runs + [(e, count)];
    assert s[..a] == s;
  }

  /** One more copy of the current value lengthens the current run. */
  lemma ExtendRun<T>(runs: seq<(T, nat)>, e: T, count: nat, prefix: seq<T>)
    requires Expand(runs) + Repeat(e, count) == prefix
    ensures Expand(runs) + Repeat(e, count + 1) == prefix + [e]
  {
    assert Repeat(e, count + 1) == Repeat(e, count) + [e];
  }

  /** A different value closes the current run and starts a run of length one. */
  lemma StartRun<T>(runs: seq<(T, nat)>, e: T, count: nat, prefix: seq<T>, x: T)
    requires WellFormedRuns(runs) && (|runs| > 0 ==> runs[|runs| - 1].0 != e) && count >= 1
    requires Expand(runs) + Repeat(e, count) == prefix && x != e
    ensures WellFormedRuns(runs + [(e, count)]) && (runs + [(e, count)])[|runs|].0 != x
    ensures Expand(runs + [(e, count)]) + Repeat(x, 1) == prefix + [x]
  {
    CloseRun(runs, e, count, prefix);
    assert Repeat(x, 1) == [x];
  }

  /** Closing the current run appends it to a well-formed encoding of the prefix read so far. */
  lemma CloseRun<T>(runs: seq<(T, nat)>, e: T, count: nat, prefix: seq<T>)
    requires WellFormedRuns(runs) && (|runs| > 0 ==> runs[|runs| - 1].0 != e) && count >= 1
    requires Expand(runs) + Repeat(e, count) == prefix
    ensures WellFormedRuns(runs + [(e, count)]) && Expand(runs + [(e, count)]) == prefix
  {
    var r := runs + [(e, count)];
    assert forall k :: 0 <= k < |runs| ==> r[k] == runs[k];
    assert r[|runs|] == (e, count);
    ExpandSnoc(runs, (e, count));
  }

  /** The first run of a well-formed encoding ends exactly where its value stops repeating. */
  lemma FirstRun<T>(runs: seq<(T, nat)>)
    requires WellFormedRuns(runs) && |runs| > 0
    ensures |Expand(runs)| >= runs[0].1
    ensures forall k :: 0 <= k < runs[0].1 ==> Expand(runs)[k] == runs[0].0
    ensures |Expand(runs)| > runs[0].1 ==> Expand(runs)[runs[0].1] != runs[0].0
  {
    var rest := Expand(runs[1..]);
    if |rest| > 0 {
      assert |runs| > 1;
      assert rest[0] == runs[1].0;
    }
  }

  /**
   A well-formed run-length encoding is determined by the sequence it
   expands to, so the output of distinct is the only one there is.
   */
  lemma {:induction false} RunsUnique<T>(r1: seq<(T, nat)>, r2: seq<(T, nat)>)
    requires WellFormedRuns(r1) && WellFormedRuns(r2) && Expand(r1) == Expand(r2)
    ensures r1 == r2
    decreases |r1|
  {
    if |r1| == 0 || |r2| == 0 {
      if |r1| > 0 {
        FirstRun(r1);
      }
      if |r2| > 0 {
        FirstRun(r2);
      }
    } else {
      FirstRun(r1);
      FirstRun(r2);
      var n, m := r1[0].1, r2[0].1;
      assert r1[0].0 == Expand(r1)[0] == r2[0].0;
      assert n == m;
      assert Expand(r1)[n..] == Expand(r1[1..]);
      assert Expand(r2)[m..] == Expand(r2[1..]);
      RunsUnique(r1[1..], r2[1..]);
      assert r1 == [r1[0]] + r1[1..];
      assert r2 == [r2[0]] + r2[1..];
    }
  }

  // ---------------------------------------------------------------------
  // pwrlist: the cache of powers of q
  // ---------------------------------------------------------------------

  function Pow(q: int, e: nat): int {
    if e == 0 then 1 else q * Pow(q, e - 1)
  }

  /** pwrlist: entries m[0] = 1, m[1] = q, and m[i] = q * m[i - 1]. */
  datatype PowerList = PowerList(m: seq<int>)

  predicate Valid(p: PowerList) {
    |p.m| >= 2 && p.m[0] == 1 &&
    forall i :: 2 <= i < |p.m| ==> PowerStep(p.m, i)
  }

  /** Entry i is q times entry i - 1. */
  predicate PowerStep(m: seq<int>, i: nat)
    requires 2 <= i < |m|
  {
    m[i] == m[1] * m[i - 1]
  }

  /** The cache p' extends p: every entry of p is still there. */
  predicate Extends(p': PowerList, p: PowerList) {
    |p'.m| >= |p.m| && p'.m[..|p.m|] == p.m
  }

  /** The constructor pwrlist(q). */
  function NewPowerList(q: int): (p: PowerList)
    ensures Valid(p) && p.m[1] == q
    ensures forall i :: 0 <= i < |p.m| ==> p.m[i] == Pow(q, i)
  {
    PowerList([1, q])
  }

  /** Every entry of a valid cache is the power of q its index names. */
  lemma {:induction false} ValidPowers(p: PowerList, i: nat)
    requires Valid(p) && i < |p.m|
    ensures p.m[i] == Pow(p.m[1], i)
    decreases i
  {
    if i >= 2 {
      ValidPowers(p, i - 1);
      assert PowerStep(p.m, i);
    }
  }

  /** The cache after operator[](e): grown to cover index e with further powers. */
  function Grow(p: PowerList, e: nat): (p': PowerList)
    requires Valid(p)
    ensures Valid(p') && p'.m[1] == p.m[1] && Extends(p', p)
    ensures |p'.m| == if e < |p.m| then |p.m| else e + 1
    ensures e < |p'.m| && p'.m[e] == Pow(p.m[1], e)
  {
    var n := if e < |p.m| then |p.m| else e + 1;
    var p' := PowerList(seq(n, i requires 0 <= i < n => if i < |p.m| then p.m[i] else Pow(p.m[1], i)));
    GrowValid(p, p');
    p'
  }

  lemma GrowValid(p: PowerList, p': PowerList)
    requires Valid(p) && |p'.m| >= |p.m|
    requires forall i :: 0 <= i < |p'.m| ==> p'.m[i] == if i < |p.m| then p.m[i] else Pow(p.m[1], i)
    ensures Valid(p') && p'.m[1] == p.m[1] && Extends(p', p)
    ensures forall i :: 0 <= i < |p'.m| ==> p'.m[i] == Pow(p.m[1], i)
  {
    forall i | 0 <= i < |p'.m|
      ensures p'.m[i] == Pow(p.m[1], i)
    {
      if i < |p.m| {
        ValidPowers(p, i);
      }
    }
  }

  /**
   operator[](e) (lines 500-504): append q * m[i - 1] until index e exists,
   then return m[e]. Only appends, so existing entries never change.
   */
  method Lookup(p: PowerList, e: nat) returns (p': PowerList, v: int)
    requires Valid(p)
    ensures p' == Grow(p, e)
    ensures v == Pow(p.m[1], e)
  {
    GrowValid(p, p);
    var m := p.m;
    var i := |m|;
    while i <= e
      invariant |p.m| <= i == |m|
      invariant i <= (if e < |p.m| then |p.m| else e + 1)
      invariant m[..|p.m|] == p.m
      invariant forall k :: 0 <= k < |m| ==> m[k] == Pow(p.m[1], k)
    {
      m := m + [m[1] * m[i - 1]];
      i := i + 1;
    }
    p' := PowerList(m);
    v := m[e];
    GrowValid(p, Grow(p, e));
  }

  // ---------------------------------------------------------------------
  // qread: one entry token "0", "1", "q", "p", "q^e" or "p^e"
  // ---------------------------------------------------------------------

  /** The letters that stand for the indeterminate q. */
  predicate IsQChar(c: char) {
    c == 'p' || c == 'q'
  }

  /** The characters `operator>>` skips. */
  predicate IsSpace(c: char) {
    c == ' ' || c == '\t' || c == '\n' || c == '\r' || c as int == 11 || c as int == 12
  }

  predicate IsDigit(c: char) {
    '0' <= c <= '9'
  }

  /** First position at or after pos that is not whitespace. */
  function SkipSpaces(s: seq<char>, pos: nat): (t: nat)
    requires pos <= |s|
    ensures pos <= t <= |s|
    ensures forall k {:trigger IsSpace(s[k])} :: pos <= k < t ==> IsSpace(s[k])
    ensures t < |s| ==> !IsSpace(s[t])
    decreases |s| - pos
  {
    if pos == |s| || !IsSpace(s[pos]) then pos else SkipSpaces(s, pos + 1)
  }

  /** End of the run of digits starting at pos. */
  function DigitRun(s: seq<char>, pos: nat): (e: nat)
    requires pos <= |s|
    ensures pos <= e <= |s|
    ensures forall k {:trigger IsDigit(s[k])} :: pos <= k < e ==> IsDigit(s[k])
    ensures e < |s| ==> !IsDigit(s[e])
    decreases |s| - pos
  {
    if pos == |s| || !IsDigit(s[pos]) then pos else DigitRun(s, pos + 1)
  }

  /** The decimal value of a string of digits. */
  function DigitsValue(ds: seq<char>): nat
    requires forall k :: 0 <= k < |ds| ==> IsDigit(ds[k])
  {
    if |ds| == 0 then 0
    else
      var c := ds[|ds| - 1];
      assert IsDigit(c);
      DigitsValue(ds[..|ds| - 1]) * 10 + (c as int - '0' as int)
  }

  /** The decimal numeral of n, without leading zeros. */
  function ShowNat(n: nat): (ds: seq<char>)
    ensures |ds| >= 1 && forall k :: 0 <= k < |ds| ==> IsDigit(ds[k])
    ensures DigitsValue(ds) == n
  {
    var last := ((n % 10) + '0' as int) as char;
    if n < 10 then [last] else
      var ds := ShowNat(n / 10) + [last];
      assert ds[..|ds| - 1] == ShowNat(n / 10);
      ds
  }

  /**
   `in >> expt` for an int: leading whitespace, an optional sign, then at
   least one digit. Returns the value and the position after the digits.
   */
  function ParseInt(s: seq<char>, pos: nat): (r: Option<(int, nat)>)
    requires pos <= |s|
    ensures r.Some? ==> pos < r.value.1 <= |s|
    ensures r.Some? ==> r.value.1 == |s| || !IsDigit(s[r.value.1])
  {
    var t := SkipSpaces(s, pos);
    var neg := t < |s| && s[t] == '-';
    var d := if t < |s| && (s[t] == '-' || s[t] == '+') then t + 1 else t;
    var e := DigitRun(s, d);
    if e == d then None
    else
      var v := DigitsValue(s[d..e]);
      Some((if neg then -(v as int) else v as int, e))
  }

  /**
   qread (lines 509-523), reading from position pos of s with the cache p.
   Returns the value and the position after the token, and the cache,
   which grows only when a power q^e is read. An unknown leading character
   is the exit at line 516; the end of input before a token and a missing or
   negative exponent are errors too.
   */
  function QRead(s: seq<char>, pos: nat, p: PowerList): (r: (Result<(int, nat)>, PowerList))
    requires pos <= |s| && Valid(p)
    ensures Valid(r.1) && r.1.m[1] == p.m[1] && Extends(r.1, p)
    ensures r.0.Ok? ==> pos < r.0.value.1 <= |s|
    ensures var t := SkipSpaces(s, pos);
      (t == |s| ==> r.0.Err?) &&
      (t < |s| && s[t] == '0' ==> r.0.Ok? && r.0.value.0 == 0 && r.0.value.1 == t + 1) &&
      (t < |s| && s[t] == '1' ==> r.0.Ok? && r.0.value.0 == 1 && r.0.value.1 == t + 1) &&
      (t < |s| && !IsQChar(s[t]) && s[t] != '0' && s[t] != '1' ==> r.0.Err?) &&
      (t < |s| && IsQChar(s[t]) && (t + 1 == |s| || s[t + 1] != '^') ==>
        r.0.Ok? && r.0.value.0 == p.m[1] && r.0.value.1 == t + 1 && r.1 == p) &&
      (t + 1 < |s| && IsQChar(s[t]) && s[t + 1] == '^' ==> r == QReadPower(s, t + 2, p))
  {
    var t := SkipSpaces(s, pos);
    QReadToken(s, t, p)
  }

  /** The token of qread once the whitespace before it is skipped: t is where it starts. */
  function QReadToken(s: seq<char>, t: nat, p: PowerList): (r: (Result<(int, nat)>, PowerList))
    requires t <= |s| && Valid(p)
    ensures Valid(r.1) && r.1.m[1] == p.m[1] && Extends(r.1, p)
    ensures r.0.Ok? ==> t < r.0.value.1 <= |s|
    ensures t == |s| ==> r.0.Err?
    ensures t < |s| && s[t] == '0' ==> r.0.Ok? && r.0.value.0 == 0 && r.0.value.1 == t + 1
    ensures t < |s| && s[t] == '1' ==> r.0.Ok? && r.0.value.0 == 1 && r.0.value.1 == t + 1
    ensures t < |s| && !IsQChar(s[t]) && s[t] != '0' && s[t] != '1' ==> r.0.Err?
    ensures t < |s| && IsQChar(s[t]) && (t + 1 == |s| || s[t + 1] != '^') ==>
      r.0.Ok? && r.0.value.0 == p.m[1] && r.0.value.1 == t + 1 && r.1 == p
    ensures t + 1 < |s| && IsQChar(s[t]) && s[t + 1] == '^' ==>
      r == QReadPower(s, t + 2, p)
  {
    if t == |s| then (Err("end of input"), p)
    else if s[t] == '0' then (Ok((0, t + 1)), p)
    else if s[t] == '1' then (Ok((1, t + 1)), p)
    else if !IsQChar(s[t]) then (Err("unknown char"), p)
    else if t + 1 == |s| || s[t + 1] != '^' then (Ok((p.m[1], t + 1)), p)
    else QReadPower(s, t + 2, p)
  }

  /** The exponent of q^e, read from position at, and the power from the cache. */
  function QReadPower(s: seq<char>, at: nat, p: PowerList): (r: (Result<(int, nat)>, PowerList))
    requires at <= |s| && Valid(p)
    ensures Valid(r.1) && r.1.m[1] == p.m[1] && Extends(r.1, p)
    ensures r.0.Ok? <==> ParseInt(s, at).Some? && ParseInt(s, at).value.0 >= 0
    ensures r.0.Ok? ==>
      r.0.value.0 == Pow(p.m[1], ParseInt(s, at).value.0) && r.0.value.1 == ParseInt(s, at).value.1
  {
    match ParseInt(s, at)
    case None => (Err("missing exponent"), p)
    case Some((e, end)) =>
      if e < 0 then (Err("negative exponent"), p)
      else
        var p' := Grow(p, e);
        (Ok((p'.m[e], end)), p')
  }

  /** The tokens qread accepts. */
  datatype Token = Zero | One | Q | QPow(e: nat)

  /** The value a token stands for at q. */
  function TokenValue(tok: Token, q: int): int {
    match tok
    case Zero => 0
    case One => 1
    case Q => q
    case QPow(e) => Pow(q, e)
  }

  /** The text of a token, as it appears in a Krattenthaler matrix file. */
  function Render(tok: Token): string {
    match tok
    case Zero => "0"
    case One => "1"
    case Q => "q"
    case QPow(e) => "q^" + ShowNat(e)
  }

  /** A token can be followed by rest without running into it. */
  predicate Separated(tok: Token, rest: string) {
    match tok
    case Q => |rest| == 0 || rest[0] != '^'
    case QPow(_) => |rest| == 0 || !IsDigit(rest[0])
    case _ => true
  }

  lemma DigitsValueOfPrefix(ds: seq<char>, rest: seq<char>, n: nat)
    requires n == |ds| && forall k :: 0 <= k < |ds| ==> IsDigit(ds[k])
    ensures (ds + rest)[..n] == ds
  {}

  lemma DigitRunOfNumeral(e: nat, s: seq<char>, at: nat)
    requires at + |ShowNat(e)| <= |s| && s[at..at + |ShowNat(e)|] == ShowNat(e)
    requires at + |ShowNat(e)| == |s| || !IsDigit(s[at + |ShowNat(e)|])
    ensures DigitRun(s, at) == at + |ShowNat(e)|
    decreases |ShowNat(e)|
  {
    var ds := ShowNat(e);
    DigitRunFrom(s, at, at + |ds|);
  }

  lemma {:induction false} DigitRunFrom(s: seq<char>, at: nat, end: nat)
    requires at <= end <= |s|
    requires forall k :: at <= k < end ==> IsDigit(s[k])
    requires end == |s| || !IsDigit(s[end])
    ensures DigitRun(s, at) == end
    decreases end - at
  {
    if at < end {
      DigitRunFrom(s, at + 1, end);
    }
  }

  /** Reading back a rendered token gives its value and consumes exactly its text. */
  lemma QReadRender(tok: Token, rest: string, p: PowerList)
    requires Valid(p) && Separated(tok, rest)
    ensures QRead(Render(tok) + rest, 0, p).0 == Ok((TokenValue(tok, p.m[1]), |Render(tok)|))
  {
    var s := Render(tok) + rest;
    assert s[0] == Render(tok)[0];
    assert SkipSpaces(s, 0) == 0;
    match tok
    case Zero =>
    case One =>
    case Q =>
      assert |s| == 1 || s[1] == rest[0];
    case QPow(e) =>
      var ds := ShowNat(e);
      assert s == "q^" + ds + rest;
      assert s[1] == '^';
      assert SkipSpaces(s, 2) == 2;
      assert s[2..2 + |ds|] == ds;
      DigitRunOfNumeral(e, s, 2);
      assert !(s[2] == '-' || s[2] == '+');
      assert ParseInt(s, 2) == Some((e, 2 + |ds|));
  }

  // ---------------------------------------------------------------------
  // The local branch: expanding (count, value) pairs and padding
  // ---------------------------------------------------------------------

  /** Lines 206-209: each (count, value) pair becomes count copies of value. */
  function ExpandLocal(local: seq<(nat, int)>): (L: seq<int>)
    ensures L == Expand(Flip(local))
  {
    if |local| == 0 then []
    else
      assert Flip(local)[1..] == Flip(local[1..]);
      Repeat(local[0].1, local[0].0) + ExpandLocal(local[1..])
  }

  /** The (count, value) pairs as (value, count) runs. */
  function Flip(local: seq<(nat, int)>): (runs: seq<(int, nat)>)
    ensures |runs| == |local|
    ensures forall k :: 0 <= k < |local| ==> runs[k] == (local[k].1, local[k].0)
  {
    seq(|local|, k requires 0 <= k < |local| => (local[k].1, local[k].0))
  }

  /** Lines 210-212: zeros appended until the list has at least n entries. */
  function PadZeros(L: seq<int>, n: nat): (P: seq<int>)
    ensures |P| == if |L| < n then n else |L|
    ensures P[..|L|] == L
    ensures forall k :: |L| <= k < |P| ==> P[k] == 0
  {
    if |L| < n then L + Repeat(0, n - |L|) else L
  }

  /** The list the local branch passes to distinct. */
  function LocalList(local: seq<(nat, int)>, rows: nat, cols: nat): (L: seq<int>)
    ensures |L| == if Total(Flip(local)) < Min(rows, cols) then Min(rows, cols) else Total(Flip(local))
    ensures L[..Total(Flip(local))] == Expand(Flip(local))
    ensures forall k :: Total(Flip(local)) <= k < |L| ==> L[k] == 0
  {
    ExpandLength(Flip(local));
    PadZeros(ExpandLocal(local), Min(rows, cols))
  }

  /** Encoding the expanded list recovers the pairs when they are already a well-formed encoding. */
  lemma LocalPairsRecovered(local: seq<(nat, int)>, runs: seq<(int, nat)>)
    requires WellFormedRuns(Flip(local)) && WellFormedRuns(runs)
    requires Expand(runs) == ExpandLocal(local)
    ensures runs == Flip(local)
  {
    RunsUnique(runs, Flip(local));
  }

  // ---------------------------------------------------------------------
  // The choice of algorithm and the ilio report
  // ---------------------------------------------------------------------

  datatype Algorithm = Adaptive | Ilio | Local | TwoLocal

  /** The command-line name of each branch. */
  function AlgorithmName(a: Algorithm): string {
    match a
    case Adaptive => "adaptive"
    case Ilio => "ilio"
    case Local => "local"
    case TwoLocal => "2local"
  }

  /** What main does with the algorithm name: run one branch, or exit. */
  datatype Outcome = Run(algorithm: Algorithm) | Exit(code: int, message: string)

  /**
   The if/else chain at lines 116-300: the four names select their branch,
   anything else prints "Unknown algorithms" and exits with -1.
   */
  function Dispatch(name: string): (o: Outcome)
    ensures o.Run? ==> AlgorithmName(o.algorithm) == name
    ensures o.Exit? ==> o == Exit(-1, "Unknown algorithms")
  {
    if name == "adaptive" then Run(Adaptive)
    else if name == "ilio" then Run(Ilio)
    else if name == "local" then Run(Local)
    else if name == "2local" then Run(TwoLocal)
    else Exit(-1, "Unknown algorithms")
  }

  /** Every branch is reached by its own name, so a name runs exactly the branch it names. */
  lemma DispatchByName(a: Algorithm)
    ensures Dispatch(AlgorithmName(a)) == Run(a)
  {}

  /**
   The ilio branch (lines 144-167) with the read bounded by
   min(rowdim, coldim): the run-length encoding of the invariant factors.
   */
  method IlioReport(A: Matrix, fuel: nat) returns (r: Option<seq<(int, nat)>>)
    requires Rect(A)
    ensures r.Some? <==> Solve(A, fuel).Some?
    ensures r.Some? ==> WellFormedRuns(r.value) && Expand(r.value) == Solve(A, fuel).value
  {
    match Solve(A, fuel)
    case None =>
      r := None;
    case Some(f) =>
      var runs := Distinct(f, []);
      assert runs[0..] == runs;
      r := Some(runs);
  }

  /**
   The ilio branch as written (lines 154-165): smithFormIn, then M[i][i] for
   every i < rowdim, then distinct. With at most as many rows as columns it
   reports exactly the invariant factors; for a tall matrix the read fails.
   */
  method IlioListAsWritten(A: Matrix, fuel: nat) returns (r: Result<seq<(int, nat)>>)
    requires Rect(A)
    ensures SmithFormIn(A, fuel).None? ==> r.Err?
    ensures |A| > Cols(A) ==> r.Err?
    ensures |A| <= Cols(A) ==> (r.Ok? <==> Solve(A, fuel).Some?)
    ensures r.Ok? ==> WellFormedRuns(r.value) && Expand(r.value) == Solve(A, fuel).value
  {
    match SmithFormIn(A, fuel)
    case None =>
      r := Err("no convergence");
    case Some(M) =>
      match ReadDiagonal(M, |M|)
      case Err(msg) =>
        r := Err(msg);
      case Ok(list) =>
        var runs := Distinct(list, []);
        assert runs[0..] == runs;
        r := Ok(runs);
  }

  /** As written, the ilio branch reads M[i][i] for every i < rowdim; for a tall matrix that runs past the columns. */
  lemma IlioListTall(M: Matrix)
    requires Rect(M) && |M| > Cols(M)
    ensures ReadDiagonal(M, |M|).Err?
  {}
}
