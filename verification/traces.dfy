/**
  Trace extraction: a depth-first walk from the bottom-right cell back through
  every predecessor list, producing one trace per path that ends at a cell
  without predecessors. A trace lists the visited cells in chronological
  order, without the starting cell.
 */
module TraceExtraction {
  import opened EditDistance

  type Trace = seq<Address>

  predicate InBounds(M: Matrix, p: Address) {
    p.0 < |M| && p.1 < |M[p.0]|
  }

  function Prev(M: Matrix, p: Address): seq<Address>
    requires InBounds(M, p)
  {
    M[p.0][p.1].previous
  }

  /** A cell with no predecessors, where every walk back ends. */
  predicate Sink(M: Matrix, p: Address)
    requires InBounds(M, p)
  {
    Prev(M, p) == []
  }

  /** `p` comes strictly before `a` in the order (distance, i + j) that every walk back descends. */
  predicate Below(M: Matrix, p: Address, a: Address)
    requires InBounds(M, p) && InBounds(M, a)
  {
    var dp, da := M[p.0][p.1].distance, M[a.0][a.1].distance;
    0 <= dp && (dp < da || (dp == da && p.0 + p.1 < a.0 + a.1))
  }

  predicate CellRanked(M: Matrix, a: Address)
    requires InBounds(M, a)
  {
    && M[a.0][a.1].distance >= 0
    && forall p :: p in Prev(M, a) ==> InBounds(M, p) && Below(M, p, a)
  }

  /**
    The walk back terminates: predecessors lie inside the matrix and descend in
    (distance, i + j). Built matrices with non-negative costs satisfy it, and
    so do the hand-built matrices of the unit tests.
   */
  ghost predicate Ranked(M: Matrix) {
    forall a: Address {:trigger CellRanked(M, a)} :: InBounds(M, a) ==> CellRanked(M, a)
  }

  function Extend(ts: seq<Trace>, a: Address): (r: seq<Trace>)
    ensures |r| == |ts|
    ensures forall k :: 0 <= k < |r| ==> r[k] == ts[k] + [a]
    ensures forall t :: t in r ==> t != [] && t[|t| - 1] == a
  {
    if ts == [] then [] else [ts[0] + [a]] + Extend(ts[1..], a)
  }

  lemma ExtendMember(ts: seq<Trace>, a: Address, t: Trace)
    requires t in Extend(ts, a)
    ensures t != [] && t[|t| - 1] == a && t[..|t| - 1] in ts
  {
    var r := Extend(ts, a);
    var q :| 0 <= q < |r| && r[q] == t;
    assert t[..|t| - 1] == ts[q];
  }

  /** All traces ending at `a`: the empty trace at a sink, otherwise the traces of each predecessor in turn, extended by `a`. */
  function Traces(M: Matrix, a: Address): (r: seq<Trace>)
    requires Ranked(M) && InBounds(M, a)
    ensures |r| >= 1
    ensures forall t :: t in r ==> (t == [] <==> Sink(M, a))
    ensures forall t :: t in r && t != [] ==> t[|t| - 1] == a
    decreases M[a.0][a.1].distance, a.0 + a.1, |Prev(M, a)| + 1
  {
    assert CellRanked(M, a);
    if Prev(M, a) == [] then [[]]
    else TracesVia(M, a, Prev(M, a))
  }

  function TracesVia(M: Matrix, a: Address, ps: seq<Address>): (r: seq<Trace>)
    requires Ranked(M) && InBounds(M, a)
    requires forall p :: p in ps ==> p in Prev(M, a)
    ensures ps != [] ==> |r| >= 1
    ensures forall t :: t in r ==> t != [] && t[|t| - 1] == a
    decreases M[a.0][a.1].distance, a.0 + a.1, |ps|
  {
    assert CellRanked(M, a);
    if ps == [] then []
    else Extend(Traces(M, ps[0]), a) + TracesVia(M, a, ps[1..])
  }

  /** Every step of `path` is allowed by the predecessor list of the later cell. */
  ghost predicate Licensed(M: Matrix, path: seq<Address>) {
    forall k :: 0 <= k < |path| ==> InBounds(M, path[k]) && (k > 0 ==> path[k - 1] in Prev(M, path[k]))
  }

  /** `t` is a trace from sink `s` to `a`: the path s, t[0], ..., t[|t|-1] is licensed and ends at `a`. */
  ghost predicate IsTraceFrom(M: Matrix, s: Address, a: Address, t: Trace) {
    && InBounds(M, s)
    && Sink(M, s)
    && Licensed(M, [s] + t)
    && ([s] + t)[|t|] == a
  }

  /** Declarative definition of a trace: a licensed path from some sink to `a`, sink excluded. */
  ghost predicate IsTrace(M: Matrix, a: Address, t: Trace) {
    exists s: Address :: IsTraceFrom(M, s, a, t)
  }

  /** Every trace through a list of predecessors extends a trace of one of them. */
  lemma {:induction false} TracesViaElim(M: Matrix, a: Address, ps: seq<Address>, t: Trace)
    requires Ranked(M) && InBounds(M, a) && CellRanked(M, a)
    requires forall p :: p in ps ==> p in Prev(M, a)
    requires t in TracesVia(M, a, ps)
    ensures t != [] && t[|t| - 1] == a
    ensures exists k :: 0 <= k < |ps| && InBounds(M, ps[k]) && t[..|t| - 1] in Traces(M, ps[k])
    decreases |ps|
  {
    var head := Extend(Traces(M, ps[0]), a);
    var tail := TracesVia(M, a, ps[1..]);
    assert TracesVia(M, a, ps) == head + tail;
    if t in head {
      ExtendMember(Traces(M, ps[0]), a, t);
    } else {
      assert t in tail;
      TracesViaElim(M, a, ps[1..], t);
      var rest := ps[1..];
      var k :| 0 <= k < |rest| && InBounds(M, rest[k]) && t[..|t| - 1] in Traces(M, rest[k]);
      assert rest[k] == ps[k + 1];
    }
  }

  /** Every trace of a listed predecessor, extended by `a`, is a trace through the list. */
  lemma {:induction false} TracesViaIntro(M: Matrix, a: Address, ps: seq<Address>, k: nat, t: Trace)
    requires Ranked(M) && InBounds(M, a) && CellRanked(M, a)
    requires forall p :: p in ps ==> p in Prev(M, a)
    requires k < |ps| && t in Traces(M, ps[k])
    ensures t + [a] in TracesVia(M, a, ps)
    decreases |ps|
  {
    if k == 0 {
      var q :| 0 <= q < |Traces(M, ps[0])| && Traces(M, ps[0])[q] == t;
      assert Extend(Traces(M, ps[0]), a)[q] == t + [a];
    } else {
      assert ps[1..][k - 1] == ps[k];
      TracesViaIntro(M, a, ps[1..], k - 1, t);
    }
  }

  lemma SplitLast<T>(t: seq<T>)
    requires |t| > 0
    ensures t == t[..|t| - 1] + [t[|t| - 1]]
  {
  }

  lemma ConsSnoc<T>(s: T, t: seq<T>, a: T)
    ensures [s] + (t + [a]) == ([s] + t) + [a]
  {
  }

  lemma LicensedExtend(M: Matrix, path: seq<Address>, a: Address)
    requires Licensed(M, path) && |path| > 0
    requires InBounds(M, a) && path[|path| - 1] in Prev(M, a)
    ensures Licensed(M, path + [a])
  {
    var path' := path + [a];
    forall k | 0 <= k < |path'|
      ensures InBounds(M, path'[k]) && (k > 0 ==> path'[k - 1] in Prev(M, path'[k]))
    {
      if k < |path| {
        assert path'[k] == path[k];
        if k > 0 {
          assert path'[k - 1] == path[k - 1];
        }
      }
    }
  }

  lemma LicensedPrefix(M: Matrix, path: seq<Address>, n: nat)
    requires Licensed(M, path) && n <= |path|
    ensures Licensed(M, path[..n])
  {
    forall k | 0 <= k < n
      ensures InBounds(M, path[..n][k]) && (k > 0 ==> path[..n][k - 1] in Prev(M, path[..n][k]))
    {
      assert path[..n][k] == path[k];
      if k > 0 {
        assert path[..n][k - 1] == path[k - 1];
      }
    }
  }

  /** Soundness: everything the walk emits is a trace. */
  lemma {:induction false} TracesSound(M: Matrix, a: Address, t: Trace)
    requires Ranked(M) && InBounds(M, a)
    requires t in Traces(M, a)
    ensures IsTrace(M, a, t)
    decreases M[a.0][a.1].distance, a.0 + a.1
  {
    assert CellRanked(M, a);
    if Sink(M, a) {
      assert t == [];
      assert [a] + t == [a];
      assert IsTraceFrom(M, a, a, t);
    } else {
      TracesViaElim(M, a, Prev(M, a), t);
      var k :| 0 <= k < |Prev(M, a)| && InBounds(M, Prev(M, a)[k]) && t[..|t| - 1] in Traces(M, Prev(M, a)[k]);
      var p := Prev(M, a)[k];
      var t' := t[..|t| - 1];
      SplitLast(t);
      assert p in Prev(M, a) && Below(M, p, a);
      TracesSound(M, p, t');
      var s :| IsTraceFrom(M, s, p, t');
      TraceFromExtend(M, s, p, a, t');
    }
  }

  lemma TraceFromExtend(M: Matrix, s: Address, p: Address, a: Address, t: Trace)
    requires IsTraceFrom(M, s, p, t)
    requires InBounds(M, a) && p in Prev(M, a)
    ensures IsTraceFrom(M, s, a, t + [a])
  {
    ConsSnoc(s, t, a);
    var path := [s] + t;
    assert path[|path| - 1] == p;
    LicensedExtend(M, path, a);
  }

  /** Completeness: every trace is emitted by the walk. */
  lemma {:induction false} TracesComplete(M: Matrix, a: Address, t: Trace)
    requires Ranked(M) && InBounds(M, a)
    requires IsTrace(M, a, t)
    ensures t in Traces(M, a)
    decreases M[a.0][a.1].distance, a.0 + a.1
  {
    assert CellRanked(M, a);
    var s :| IsTraceFrom(M, s, a, t);
    var path := [s] + t;
    if t == [] {
      assert a == s;
    } else {
      var n := |t|;
      assert path[n] == a;
      var p := path[n - 1];
      assert p in Prev(M, a) && Below(M, p, a);
      var t' := t[..n - 1];
      assert [s] + t' == path[..n];
      LicensedPrefix(M, path, n);
      assert IsTraceFrom(M, s, p, t');
      TracesComplete(M, p, t');
      var k :| 0 <= k < |Prev(M, a)| && Prev(M, a)[k] == p;
      SplitLast(t);
      TracesViaIntro(M, a, Prev(M, a), k, t');
    }
  }

  predicate Distinct<T(==)>(xs: seq<T>) {
    forall k, l :: 0 <= k < l < |xs| ==> xs[k] != xs[l]
  }

  /** Only the origin lacks predecessors, as in every built matrix. */
  predicate OriginOnlySink(M: Matrix) {
    forall i: nat, j: nat :: i < |M| && j < |M[i]| && M[i][j].previous == [] ==> (i, j) == (0, 0)
  }

  predicate DistinctPredecessors(M: Matrix) {
    forall i: nat, j: nat :: i < |M| && j < |M[i]| ==> Distinct(M[i][j].previous)
  }

  lemma DistinctConcat<T>(xs: seq<T>, ys: seq<T>)
    requires Distinct(xs) && Distinct(ys)
    requires forall x, y :: x in xs && y in ys ==> x != y
    ensures Distinct(xs + ys)
  {
    forall k, l | 0 <= k < l < |xs + ys|
      ensures (xs + ys)[k] != (xs + ys)[l]
    {
      if l < |xs| {
      } else if k >= |xs| {
        assert (xs + ys)[k] == ys[k - |xs|];
        assert (xs + ys)[l] == ys[l - |xs|];
      } else {
        assert (xs + ys)[k] in xs;
        assert (xs + ys)[l] in ys;
      }
    }
  }

  lemma ExtendDistinct(ts: seq<Trace>, a: Address)
    requires Distinct(ts)
    ensures Distinct(Extend(ts, a))
  {
    var r := Extend(ts, a);
    forall k, l | 0 <= k < l < |r|
      ensures r[k] != r[l]
    {
      assert ts[k] == r[k][..|r[k]| - 1];
      assert ts[l] == r[l][..|r[l]| - 1];
    }
  }

  lemma DistinctTail<T>(xs: seq<T>)
    requires Distinct(xs) && |xs| > 0
    ensures Distinct(xs[1..])
  {
    forall k, l | 0 <= k < l < |xs[1..]|
      ensures xs[1..][k] != xs[1..][l]
    {
      assert xs[k + 1] != xs[l + 1];
    }
  }

  lemma HeadTailDisjoint(M: Matrix, a: Address, ps: seq<Address>, x: Trace, y: Trace)
    requires Ranked(M) && InBounds(M, a) && CellRanked(M, a) && OriginOnlySink(M)
    requires forall p :: p in ps ==> p in Prev(M, a)
    requires Distinct(ps) && |ps| > 0
    requires x in Extend(Traces(M, ps[0]), a)
    requires y in TracesVia(M, a, ps[1..])
    ensures x != y
  {
    var p := ps[0];
    var head := Extend(Traces(M, p), a);
    var q :| 0 <= q < |head| && head[q] == x;
    var t1 := Traces(M, p)[q];
    var rest := ps[1..];
    TracesViaElim(M, a, rest, y);
    var k :| 0 <= k < |rest| && InBounds(M, rest[k]) && y[..|y| - 1] in Traces(M, rest[k]);
    var t2 := y[..|y| - 1];
    SplitLast(y);
    var p2 := rest[k];
    assert p2 == ps[k + 1] && p2 != p;
    DifferentEnds(M, a, p, p2, t1, t2);
  }

  /** Traces of two different predecessors stay different once both are extended by `a`. */
  lemma DifferentEnds(M: Matrix, a: Address, p: Address, p2: Address, t1: Trace, t2: Trace)
    requires Ranked(M) && OriginOnlySink(M)
    requires InBounds(M, p) && InBounds(M, p2) && p != p2
    requires t1 in Traces(M, p) && t2 in Traces(M, p2)
    ensures t1 + [a] != t2 + [a]
  {
    if t1 == [] {
      assert M[p.0][p.1].previous == [];
      assert M[p2.0][p2.1].previous != [];
      assert |t1 + [a]| != |t2 + [a]|;
    } else if t2 == [] {
      assert M[p2.0][p2.1].previous == [];
      assert M[p.0][p.1].previous != [];
      assert |t1 + [a]| != |t2 + [a]|;
    } else if |t1| == |t2| {
      assert (t1 + [a])[|t1| - 1] == p;
      assert (t2 + [a])[|t2| - 1] == p2;
    } else {
      assert |t1 + [a]| != |t2 + [a]|;
    }
  }

  /**
    When only the origin is a sink and no predecessor list repeats itself, the
    walk emits each trace once: the traces are exactly the distinct paths.
   */
  lemma {:induction false} TracesDistinct(M: Matrix, a: Address)
    requires Ranked(M) && InBounds(M, a)
    requires OriginOnlySink(M) && DistinctPredecessors(M)
    ensures Distinct(Traces(M, a))
    decreases M[a.0][a.1].distance, a.0 + a.1, |Prev(M, a)| + 1
  {
    assert CellRanked(M, a);
    if Prev(M, a) != [] {
      assert Distinct(Prev(M, a));
      TracesViaDistinct(M, a, Prev(M, a));
    }
  }

  lemma {:induction false} TracesViaDistinct(M: Matrix, a: Address, ps: seq<Address>)
    requires Ranked(M) && InBounds(M, a)
    requires OriginOnlySink(M) && DistinctPredecessors(M)
    requires forall p :: p in ps ==> p in Prev(M, a)
    requires Distinct(ps)
    ensures Distinct(TracesVia(M, a, ps))
    decreases M[a.0][a.1].distance, a.0 + a.1, |ps|
  {
    assert CellRanked(M, a);
    if ps != [] {
      var p := ps[0];
      assert p in Prev(M, a) && Below(M, p, a);
      TracesDistinct(M, p);
      var head := Extend(Traces(M, p), a);
      ExtendDistinct(Traces(M, p), a);
      DistinctTail(ps);
      TracesViaDistinct(M, a, ps[1..]);
      var tail := TracesVia(M, a, ps[1..]);
      forall x, y | x in head && y in tail
        ensures x != y
      {
        HeadTailDisjoint(M, a, ps, x, y);
      }
      DistinctConcat(head, tail);
    }
  }
  predicate Rectangular(M: Matrix) {
    |M| > 0 && |M[0]| > 0 && forall i :: 0 <= i < |M| ==> |M[i]| == |M[0]|
  }

  /** All traces of a matrix, from the bottom-right cell. */
  function ExtractTraces(M: Matrix): (r: seq<Trace>)
    requires Ranked(M) && Rectangular(M)
    ensures |r| >= 1
    ensures forall t :: t in r ==> IsTrace(M, (|M| - 1, |M[0]| - 1), t)
  {
    var r := Traces(M, (|M| - 1, |M[0]| - 1));
    forall t | t in r
      ensures IsTrace(M, (|M| - 1, |M[0]| - 1), t)
    {
      TracesSound(M, (|M| - 1, |M[0]| - 1), t);
    }
    r
  }

  /** A built matrix under non-negative costs can be walked back, and only (0, 0) starts a trace. */
  lemma BuiltRanked(M: Matrix, s: string, t: string, c: Costs)
    requires Built(M, s, t, c) && NonNegative(c)
    ensures Ranked(M) && Rectangular(M) && OriginOnlySink(M) && DistinctPredecessors(M)
  {
    forall a: Address | InBounds(M, a)
      ensures CellRanked(M, a)
    {
      BuiltDistance(M, s, t, c, a.0, a.1);
      DistanceNonNegative(s[..a.0], t[..a.1], c);
      PredecessorsExact(M, s, t, c, a);
      forall p | p in Prev(M, a)
        ensures InBounds(M, p) && Below(M, p, a)
      {
        BuiltDistance(M, s, t, c, p.0, p.1);
        DistanceNonNegative(s[..p.0], t[..p.1], c);
      }
    }
    forall i: nat, j: nat | i < |M| && j < |M[i]|
      ensures M[i][j].previous == [] ==> (i, j) == (0, 0)
      ensures Distinct(M[i][j].previous)
    {
      PredecessorsExact(M, s, t, c, (i, j));
    }
  }

  /** Every step of `path` moves to a neighbouring cell: down, right or diagonally. */
  predicate NeighbourSteps(path: seq<Address>) {
    forall k :: 0 < k < |path| ==> Neighbour(path[k - 1], path[k])
  }

  function Max(a: int, b: int): int {
    if a >= b then a else b
  }

  /** A path of neighbour steps from (0, 0) to (i, j) takes between max(i, j) and i + j steps. */
  lemma {:induction false} PathLength(path: seq<Address>)
    requires |path| > 0 && path[0] == (0, 0) && NeighbourSteps(path)
    ensures Max(path[|path| - 1].0, path[|path| - 1].1) <= |path| - 1 <= path[|path| - 1].0 + path[|path| - 1].1
  {
    if |path| > 1 {
      var init := path[..|path| - 1];
      assert forall k :: 0 <= k < |init| ==> init[k] == path[k];
      PathLength(init);
      assert Neighbour(path[|path| - 2], path[|path| - 1]);
    }
  }

  /** In a built matrix every licensed step is a neighbour step. */
  lemma LicensedNeighbourSteps(M: Matrix, s: string, t: string, c: Costs, path: seq<Address>)
    requires Built(M, s, t, c) && Licensed(M, path)
    ensures NeighbourSteps(path)
  {
    forall k | 0 < k < |path|
      ensures Neighbour(path[k - 1], path[k])
    {
      assert InBounds(M, path[k]) && path[k - 1] in Prev(M, path[k]);
      PredecessorsExact(M, s, t, c, path[k]);
    }
  }

  /**
    The traces of a built matrix start from (0, 0), move by neighbour steps each
    licensed by the later cell's predecessors, end at (|s|, |t|), and take
    between max(|s|, |t|) and |s| + |t| steps.
   */
  lemma BuiltTraces(M: Matrix, s: string, t: string, c: Costs, tr: Trace)
    requires Built(M, s, t, c) && NonNegative(c)
    requires Ranked(M) && tr in Traces(M, (|s|, |t|))
    ensures Licensed(M, [(0, 0)] + tr)
    ensures NeighbourSteps([(0, 0)] + tr)
    ensures ([(0, 0)] + tr)[|tr|] == (|s|, |t|)
    ensures Max(|s|, |t|) <= |tr| <= |s| + |t|
  {
    BuiltRanked(M, s, t, c);
    TracesSound(M, (|s|, |t|), tr);
    var z: Address :| IsTraceFrom(M, z, (|s|, |t|), tr);
    assert M[z.0][z.1].previous == [];
    assert z == (0, 0);
    var path := [(0, 0)] + tr;
    LicensedNeighbourSteps(M, s, t, c, path);
    PathLength(path);
  }
}
