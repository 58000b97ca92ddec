/**
  Turning a trace into a column-wise alignment, the three-line textual view of
  an alignment, and the entry point that returns the distance together with
  every optimal alignment.
 */
module Alignments {
  import opened Wrappers
  import opened EditDistance
  import opened TraceExtraction

  /** The cell a trace stands on before its k-th step: (0, 0) first, then the previous entry. */
  function Before(trace: Trace, k: nat): Address
    requires k <= |trace|
  {
    if k == 0 then (0, 0) else trace[k - 1]
  }

  /** The step from `p` to `a` reads only characters that exist, in the branch that uses them. */
  predicate Readable(p: Address, a: Address, s: string, t: string) {
    if p.0 == a.0 then 1 <= a.1 <= |t|
    else if p.1 == a.1 then 1 <= a.0 <= |s|
    else 1 <= a.0 <= |s| && 1 <= a.1 <= |t|
  }

  predicate ReadableTrace(trace: Trace, s: string, t: string) {
    forall k :: 0 <= k < |trace| ==> Readable(Before(trace, k), trace[k], s, t)
  }

  /** The column for one step, classified by which index moved. */
  function StepColumn(p: Address, a: Address, s: string, t: string): Column
    requires Readable(p, a, s, t)
  {
    if p.0 == a.0 then Column(None, Some(t[a.1 - 1]), Some(Insertion))
    else if p.1 == a.1 then Column(Some(s[a.0 - 1]), None, Some(Deletion))
    else if s[a.0 - 1] == t[a.1 - 1] then Column(Some(s[a.0 - 1]), Some(t[a.1 - 1]), None)
    else Column(Some(s[a.0 - 1]), Some(t[a.1 - 1]), Some(Substitution))
  }

  /** Exactly one of match, substitution, deletion, insertion; never two absent characters. */
  predicate WellFormedColumn(col: Column) {
    match col
    case Column(Some(x), Some(y), None) => x == y
    case Column(Some(x), Some(y), Some(Substitution)) => x != y
    case Column(Some(_), None, Some(Deletion)) => true
    case Column(None, Some(_), Some(Insertion)) => true
    case _ => false
  }

  predicate WellFormed(A: Alignment) {
    forall k :: 0 <= k < |A| ==> WellFormedColumn(A[k])
  }

  /**
    The column for the step from `p` to `a` is classified by shape: a step
    within a row inserts the target character, a step within a column deletes
    the source character, and a diagonal step carries both characters.
   */
  predicate Classified(p: Address, a: Address, s: string, t: string, col: Column)
    requires Readable(p, a, s, t)
  {
    && (col.edit == Some(Insertion) <==> p.0 == a.0)
    && (col.edit == Some(Deletion) <==> p.0 != a.0 && p.1 == a.1)
    && col.sourceChar == (if p.0 == a.0 then None else Some(s[a.0 - 1]))
    && col.targetChar == (if p.0 != a.0 && p.1 == a.1 then None else Some(t[a.1 - 1]))
  }

  lemma StepColumnClassified(p: Address, a: Address, s: string, t: string)
    requires Readable(p, a, s, t)
    ensures Classified(p, a, s, t, StepColumn(p, a, s, t))
    ensures WellFormedColumn(StepColumn(p, a, s, t))
  {
  }

  /** Classification together with well-formedness pins a column down completely. */
  lemma ColumnDetermined(p: Address, a: Address, s: string, t: string, col: Column)
    requires Readable(p, a, s, t) && Classified(p, a, s, t, col) && WellFormedColumn(col)
    ensures col == StepColumn(p, a, s, t)
  {
  }

  /** One column per step of the trace, each classified by the shape of its step. */
  function TraceToAlignment(trace: Trace, s: string, t: string): (r: Alignment)
    requires ReadableTrace(trace, s, t)
    ensures |r| == |trace|
    ensures WellFormed(r)
    ensures forall k :: 0 <= k < |r| ==> Classified(Before(trace, k), trace[k], s, t, r[k])
  {
    if trace == [] then []
    else
      var n := |trace|;
      ReadableInit(trace, s, t);
      var prefix := TraceToAlignment(trace[..n - 1], s, t);
      var last := StepColumn(Before(trace, n - 1), trace[n - 1], s, t);
      StepColumnClassified(Before(trace, n - 1), trace[n - 1], s, t);
      ClassifiedSnoc(trace, s, t, prefix, last);
      prefix + [last]
  }

  /** Appending the column of the last step to the columns of the earlier steps classifies every step. */
  lemma ClassifiedSnoc(trace: Trace, s: string, t: string, prefix: Alignment, last: Column)
    requires ReadableTrace(trace, s, t) && |trace| > 0
    requires ReadableTrace(trace[..|trace| - 1], s, t)
    requires |prefix| == |trace| - 1 && WellFormed(prefix)
    requires forall k :: 0 <= k < |prefix| ==>
      Classified(Before(trace[..|trace| - 1], k), trace[..|trace| - 1][k], s, t, prefix[k])
    requires WellFormedColumn(last)
    requires Classified(Before(trace, |trace| - 1), trace[|trace| - 1], s, t, last)
    ensures WellFormed(prefix + [last])
    ensures forall k :: 0 <= k < |trace| ==> Classified(Before(trace, k), trace[k], s, t, (prefix + [last])[k])
  {
    var init := trace[..|trace| - 1];
    var r := prefix + [last];
    assert WellFormed(r) by {
      assert forall k :: 0 <= k < |prefix| ==> r[k] == prefix[k];
    }
    forall k | 0 <= k < |prefix|
      ensures Classified(Before(trace, k), trace[k], s, t, r[k])
    {
      assert Before(init, k) == Before(trace, k) && init[k] == trace[k];
      assert r[k] == prefix[k];
    }
    assert r[|prefix|] == last;
  }

  /** Each column of the converted trace is the column of its step. */
  lemma ColumnsAreSteps(trace: Trace, s: string, t: string)
    requires ReadableTrace(trace, s, t)
    ensures forall k :: 0 <= k < |trace| ==>
      TraceToAlignment(trace, s, t)[k] == StepColumn(Before(trace, k), trace[k], s, t)
  {
    var r := TraceToAlignment(trace, s, t);
    forall k | 0 <= k < |trace|
      ensures r[k] == StepColumn(Before(trace, k), trace[k], s, t)
    {
      ColumnDetermined(Before(trace, k), trace[k], s, t, r[k]);
    }
  }

  function OptionChars(x: Option<char>): string {
    match x
    case Some(ch) => [ch]
    case None => []
  }

  /** The source characters of an alignment, absent slots skipped. */
  function SourceChars(A: Alignment): string {
    if A == [] then [] else SourceChars(A[..|A| - 1]) + OptionChars(A[|A| - 1].sourceChar)
  }

  /** The target characters of an alignment, absent slots skipped. */
  function TargetChars(A: Alignment): string {
    if A == [] then [] else TargetChars(A[..|A| - 1]) + OptionChars(A[|A| - 1].targetChar)
  }

  /** What a column costs under the cost model, by its shape. */
  function ColumnCost(col: Column, c: Costs): int {
    match (col.sourceChar, col.targetChar)
    case (None, Some(y)) => c.ins(y)
    case (Some(x), None) => c.del(x)
    case (Some(x), Some(y)) => c.sub(x, y)
    case (None, None) => 0
  }

  function Cost(A: Alignment, c: Costs): int {
    if A == [] then 0 else Cost(A[..|A| - 1], c) + ColumnCost(A[|A| - 1], c)
  }
  lemma BeforeInit(trace: Trace)
    requires |trace| > 0
    ensures Before(trace[..|trace| - 1], |trace| - 1) == Before(trace, |trace| - 1)
  {
  }

  /** Neighbour steps inside the matrix only ever read characters that exist. */
  lemma NeighbourStepsReadable(trace: Trace, s: string, t: string)
    requires NeighbourSteps([(0, 0)] + trace)
    requires forall k :: 0 <= k < |trace| ==> trace[k].0 <= |s| && trace[k].1 <= |t|
    ensures ReadableTrace(trace, s, t)
  {
    forall k | 0 <= k < |trace|
      ensures Readable(Before(trace, k), trace[k], s, t)
    {
      assert ([(0, 0)] + trace)[k] == Before(trace, k);
      assert ([(0, 0)] + trace)[k + 1] == trace[k];
    }
  }

  lemma NeighbourStepsInit(trace: Trace)
    requires NeighbourSteps([(0, 0)] + trace) && |trace| > 0
    ensures NeighbourSteps([(0, 0)] + trace[..|trace| - 1])
  {
    assert [(0, 0)] + trace[..|trace| - 1] == ([(0, 0)] + trace)[..|trace|];
  }

  /**
    Reading back the characters of the alignment of a neighbour-step trace
    gives exactly the source and target prefixes up to where the trace ends.
   */
  lemma {:induction false} AlignmentSpells(trace: Trace, s: string, t: string)
    requires NeighbourSteps([(0, 0)] + trace)
    requires forall k :: 0 <= k < |trace| ==> trace[k].0 <= |s| && trace[k].1 <= |t|
    ensures ReadableTrace(trace, s, t)
    ensures SourceChars(TraceToAlignment(trace, s, t)) == s[..Before(trace, |trace|).0]
    ensures TargetChars(TraceToAlignment(trace, s, t)) == t[..Before(trace, |trace|).1]
  {
    NeighbourStepsReadable(trace, s, t);
    if trace != [] {
      var n := |trace|;
      var init := trace[..n - 1];
      NeighbourStepsInit(trace);
      AlignmentSpells(init, s, t);
      var p, a := Before(trace, n - 1), trace[n - 1];
      assert Before(init, n - 1) == p;
      assert Neighbour(p, a) by {
        assert ([(0, 0)] + trace)[n - 1] == p && ([(0, 0)] + trace)[n] == a;
      }
      var A := TraceToAlignment(trace, s, t);
      assert A[..n - 1] == TraceToAlignment(init, s, t);
      SpellsStep(p, a, s, t, A[n - 1]);
    }
  }

  /** One neighbour step extends the spelled prefixes by the characters of its column. */
  lemma SpellsStep(p: Address, a: Address, s: string, t: string, col: Column)
    requires Neighbour(p, a) && a.0 <= |s| && a.1 <= |t|
    requires Readable(p, a, s, t) && Classified(p, a, s, t, col)
    ensures s[..a.0] == s[..p.0] + OptionChars(col.sourceChar)
    ensures t[..a.1] == t[..p.1] + OptionChars(col.targetChar)
  {
    if p.0 != a.0 {
      assert s[..a.0] == s[..p.0] + [s[a.0 - 1]];
    }
    if !(p.0 != a.0 && p.1 == a.1) {
      assert t[..a.1] == t[..p.1] + [t[a.1 - 1]];
    }
  }

  /** The cost of a column produced for a neighbour step is the cost of that step. */
  lemma StepColumnCost(p: Address, a: Address, s: string, t: string, c: Costs)
    requires Neighbour(p, a) && a.0 <= |s| && a.1 <= |t|
    ensures Readable(p, a, s, t)
    ensures ColumnCost(StepColumn(p, a, s, t), c) == StepCost(s, t, c, p, a)
  {
  }

  /** The last step of a trace adds the cost of that step to the cost of the alignment. */
  lemma CostSnoc(trace: Trace, s: string, t: string, c: Costs)
    requires |trace| > 0 && ReadableTrace(trace, s, t)
    requires Neighbour(Before(trace, |trace| - 1), trace[|trace| - 1])
    requires trace[|trace| - 1].0 <= |s| && trace[|trace| - 1].1 <= |t|
    ensures ReadableTrace(trace[..|trace| - 1], s, t)
    ensures Cost(TraceToAlignment(trace, s, t), c) == Cost(TraceToAlignment(trace[..|trace| - 1], s, t), c)
      + StepCost(s, t, c, Before(trace, |trace| - 1), trace[|trace| - 1])
  {
    var n := |trace|;
    var p, a := Before(trace, n - 1), trace[n - 1];
    ReadableInit(trace, s, t);
    StepColumnCost(p, a, s, t, c);
    var A := TraceToAlignment(trace, s, t);
    assert A == TraceToAlignment(trace[..n - 1], s, t) + [StepColumn(p, a, s, t)];
    assert A[..n - 1] == TraceToAlignment(trace[..n - 1], s, t);
  }

  /**
    Along a trace of a built matrix the alignment costs exactly the distance
    recorded in the cell where the trace ends.
   */
  lemma {:induction false} AlignmentCostIsDistance(M: Matrix, s: string, t: string, c: Costs, trace: Trace)
    requires Built(M, s, t, c)
    requires Licensed(M, [(0, 0)] + trace)
    ensures NeighbourSteps([(0, 0)] + trace)
    ensures ReadableTrace(trace, s, t)
    ensures InBounds(M, Before(trace, |trace|))
    ensures Cost(TraceToAlignment(trace, s, t), c) == M[Before(trace, |trace|).0][Before(trace, |trace|).1].distance
  {
    LicensedTraceFacts(M, s, t, c, trace);
    if trace == [] {
      assert CellRule(M, s, t, c, 0, 0);
    } else {
      LicensedInit(M, trace);
      AlignmentCostIsDistance(M, s, t, c, trace[..|trace| - 1]);
      CostStepIsDistance(M, s, t, c, trace);
    }
  }

  lemma LicensedInit(M: Matrix, trace: Trace)
    requires Licensed(M, [(0, 0)] + trace) && |trace| > 0
    ensures Licensed(M, [(0, 0)] + trace[..|trace| - 1])
  {
    var n := |trace|;
    assert [(0, 0)] + trace[..n - 1] == ([(0, 0)] + trace)[..n];
    LicensedPrefix(M, [(0, 0)] + trace, n);
  }

  /** A licensed trace from the origin takes neighbour steps, reads existing characters and ends inside the matrix. */
  lemma LicensedTraceFacts(M: Matrix, s: string, t: string, c: Costs, trace: Trace)
    requires Built(M, s, t, c)
    requires Licensed(M, [(0, 0)] + trace)
    ensures NeighbourSteps([(0, 0)] + trace)
    ensures ReadableTrace(trace, s, t)
    ensures InBounds(M, Before(trace, |trace|))
  {
    var path := [(0, 0)] + trace;
    LicensedNeighbourSteps(M, s, t, c, path);
    LicensedNeighbourBounds(M, s, t, c, trace);
    NeighbourStepsReadable(trace, s, t);
    assert path[|trace|] == Before(trace, |trace|);
  }

  /** A recorded last step adds to the cost exactly the difference between the two cells' distances. */
  lemma CostStepIsDistance(M: Matrix, s: string, t: string, c: Costs, trace: Trace)
    requires Built(M, s, t, c) && |trace| > 0
    requires Licensed(M, [(0, 0)] + trace)
    requires ReadableTrace(trace, s, t) && ReadableTrace(trace[..|trace| - 1], s, t)
    requires var init := trace[..|trace| - 1];
      && InBounds(M, Before(init, |init|))
      && Cost(TraceToAlignment(init, s, t), c) == M[Before(init, |init|).0][Before(init, |init|).1].distance
    ensures Cost(TraceToAlignment(trace, s, t), c) == M[trace[|trace| - 1].0][trace[|trace| - 1].1].distance
  {
    var n := |trace|;
    var path := [(0, 0)] + trace;
    BeforeInit(trace);
    var p, a := Before(trace, n - 1), trace[n - 1];
    assert path[n - 1] == p && path[n] == a;
    assert InBounds(M, a) && p in Prev(M, a);
    LicensedNeighbourBounds(M, s, t, c, trace);
    PredecessorsExact(M, s, t, c, a);
    CostSnoc(trace, s, t, c);
  }

  /**
    No alignment of s and t, optimal or not, costs less than the distance:
    the reference distance is a lower bound over all alignments.
   */
  lemma {:induction false} NoCheaperAlignment(A: Alignment, c: Costs)
    ensures Cost(A, c) >= Distance(SourceChars(A), TargetChars(A), c)
  {
    if A != [] {
      var init := A[..|A| - 1];
      NoCheaperAlignment(init, c);
      var s, t := SourceChars(A), TargetChars(A);
      var s', t' := SourceChars(init), TargetChars(init);
      match (A[|A| - 1].sourceChar, A[|A| - 1].targetChar)
      case (None, None) =>
        assert s == s' && t == t';
      case (Some(x), None) =>
        assert s[..|s| - 1] == s' && s[|s| - 1] == x && t == t';
      case (None, Some(y)) =>
        assert t[..|t| - 1] == t' && t[|t| - 1] == y && s == s';
      case (Some(x), Some(y)) =>
        assert s[..|s| - 1] == s' && s[|s| - 1] == x;
        assert t[..|t| - 1] == t' && t[|t| - 1] == y;
    }
  }
  lemma ReadableInit(trace: Trace, s: string, t: string)
    requires ReadableTrace(trace, s, t) && |trace| > 0
    ensures ReadableTrace(trace[..|trace| - 1], s, t)
  {
    var init := trace[..|trace| - 1];
    assert forall k :: 0 <= k < |init| ==> Before(init, k) == Before(trace, k) && init[k] == trace[k];
  }

  /** A column, together with the cell before it, determines the neighbour step that produced it. */
  lemma StepDetermined(p: Address, a1: Address, a2: Address, s: string, t: string, col: Column)
    requires Neighbour(p, a1) && Neighbour(p, a2)
    requires Readable(p, a1, s, t) && Readable(p, a2, s, t)
    requires Classified(p, a1, s, t, col) && Classified(p, a2, s, t, col)
    ensures a1 == a2
  {
  }

  lemma AlignmentInit(trace: Trace, s: string, t: string)
    requires ReadableTrace(trace, s, t) && |trace| > 0
    ensures ReadableTrace(trace[..|trace| - 1], s, t)
    ensures TraceToAlignment(trace, s, t)[..|trace| - 1] == TraceToAlignment(trace[..|trace| - 1], s, t)
  {
    ReadableInit(trace, s, t);
  }

  lemma LastStep(trace: Trace)
    requires NeighbourSteps([(0, 0)] + trace) && |trace| > 0
    ensures Neighbour(Before(trace, |trace| - 1), trace[|trace| - 1])
  {
    var n := |trace|;
    assert ([(0, 0)] + trace)[n - 1] == Before(trace, n - 1);
    assert ([(0, 0)] + trace)[n] == trace[n - 1];
  }

  lemma SameLastColumn(t1: Trace, t2: Trace, s: string, t: string)
    requires NeighbourSteps([(0, 0)] + t1) && NeighbourSteps([(0, 0)] + t2)
    requires ReadableTrace(t1, s, t) && ReadableTrace(t2, s, t)
    requires |t1| == |t2| > 0 && t1[..|t1| - 1] == t2[..|t2| - 1]
    requires TraceToAlignment(t1, s, t)[|t1| - 1] == TraceToAlignment(t2, s, t)[|t2| - 1]
    ensures t1 == t2
  {
    var n := |t1|;
    BeforeInit(t1);
    BeforeInit(t2);
    LastStep(t1);
    LastStep(t2);
    StepDetermined(Before(t1, n - 1), t1[n - 1], t2[n - 1], s, t, TraceToAlignment(t1, s, t)[n - 1]);
    SplitLast(t1);
    SplitLast(t2);
  }

  /**
    Different neighbour-step traces give different alignments, so the
    alignments returned for distinct traces never coincide.
   */
  lemma {:induction false} AlignmentDeterminesTrace(t1: Trace, t2: Trace, s: string, t: string)
    requires NeighbourSteps([(0, 0)] + t1) && NeighbourSteps([(0, 0)] + t2)
    requires ReadableTrace(t1, s, t) && ReadableTrace(t2, s, t)
    requires TraceToAlignment(t1, s, t) == TraceToAlignment(t2, s, t)
    ensures t1 == t2
    decreases |t1|
  {
    if t1 != [] {
      assert |t2| == |t1|;
      NeighbourStepsInit(t1);
      NeighbourStepsInit(t2);
      AlignmentInit(t1, s, t);
      AlignmentInit(t2, s, t);
      AlignmentDeterminesTrace(t1[..|t1| - 1], t2[..|t2| - 1], s, t);
      SameLastColumn(t1, t2, s, t);
    }
  }

  /** The cell each column of an alignment ends in: how many source and target characters it has consumed. */
  function Positions(A: Alignment): (r: Trace)
    ensures |r| == |A|
    ensures Before(r, |r|) == (|SourceChars(A)|, |TargetChars(A)|)
  {
    if A == [] then [] else Positions(A[..|A| - 1]) + [(|SourceChars(A)|, |TargetChars(A)|)]
  }

  /** A well-formed column that spells the next characters of both strings is the column of a neighbour step. */
  lemma ColumnIsStep(col: Column, p: Address, a: Address, s: string, t: string, c: Costs)
    requires WellFormedColumn(col) && a.0 <= |s| && a.1 <= |t| && p.0 <= a.0 && p.1 <= a.1
    requires s[..a.0] == s[..p.0] + OptionChars(col.sourceChar)
    requires t[..a.1] == t[..p.1] + OptionChars(col.targetChar)
    ensures Neighbour(p, a) && Readable(p, a, s, t)
    ensures StepColumn(p, a, s, t) == col
    ensures ColumnCost(col, c) == StepCost(s, t, c, p, a)
  {
    assert |s[..a.0]| == a.0 && |t[..a.1]| == a.1;
    if col.sourceChar.Some? {
      assert s[..a.0][a.0 - 1] == s[a.0 - 1];
    }
    if col.targetChar.Some? {
      assert t[..a.1][a.1 - 1] == t[a.1 - 1];
    }
  }

  lemma ReadableSnoc(trace: Trace, a: Address, s: string, t: string)
    requires ReadableTrace(trace, s, t) && Readable(Before(trace, |trace|), a, s, t)
    ensures ReadableTrace(trace + [a], s, t)
  {
    var tr := trace + [a];
    forall k | 0 <= k < |tr|
      ensures Readable(Before(tr, k), tr[k], s, t)
    {
      if k < |trace| {
        assert Before(tr, k) == Before(trace, k) && tr[k] == trace[k];
      } else {
        assert Before(tr, k) == Before(trace, |trace|) && tr[k] == a;
      }
    }
  }

  lemma AlignmentSnoc(trace: Trace, a: Address, s: string, t: string)
    requires ReadableTrace(trace, s, t) && Readable(Before(trace, |trace|), a, s, t)
    ensures ReadableTrace(trace + [a], s, t)
    ensures TraceToAlignment(trace + [a], s, t)
      == TraceToAlignment(trace, s, t) + [StepColumn(Before(trace, |trace|), a, s, t)]
  {
    var tr := trace + [a];
    ReadableSnoc(trace, a, s, t);
    assert tr[..|tr| - 1] == trace;
    assert Before(tr, |trace|) == Before(trace, |trace|) && tr[|trace|] == a;
  }

  lemma CharsInit(A: Alignment, s: string, i: nat)
    requires |A| > 0 && i <= |s| && SourceChars(A) == s[..i]
    ensures |SourceChars(A[..|A| - 1])| <= i
    ensures SourceChars(A[..|A| - 1]) == s[..|SourceChars(A[..|A| - 1])|]
    ensures s[..i] == s[..|SourceChars(A[..|A| - 1])|] + OptionChars(A[|A| - 1].sourceChar)
  {
    var pre := SourceChars(A[..|A| - 1]);
    assert s[..i] == pre + OptionChars(A[|A| - 1].sourceChar);
    assert s[..i][..|pre|] == pre;
  }

  lemma TargetCharsInit(A: Alignment, t: string, j: nat)
    requires |A| > 0 && j <= |t| && TargetChars(A) == t[..j]
    ensures |TargetChars(A[..|A| - 1])| <= j
    ensures TargetChars(A[..|A| - 1]) == t[..|TargetChars(A[..|A| - 1])|]
    ensures t[..j] == t[..|TargetChars(A[..|A| - 1])|] + OptionChars(A[|A| - 1].targetChar)
  {
    var pre := TargetChars(A[..|A| - 1]);
    assert t[..j] == pre + OptionChars(A[|A| - 1].targetChar);
    assert t[..j][..|pre|] == pre;
  }

  /** The last column of an optimal alignment is a tight step from `p` whose prefix is itself optimal. */
  lemma OptimalLastStep(s: string, t: string, c: Costs, A: Alignment, i: nat, j: nat) returns (p: Address)
    requires i <= |s| && j <= |t| && |A| > 0
    requires WellFormed(A) && SourceChars(A) == s[..i] && TargetChars(A) == t[..j]
    requires Cost(A, c) == Distance(s[..i], t[..j], c)
    ensures p == Before(Positions(A[..|A| - 1]), |A| - 1)
    ensures p.0 <= i && p.1 <= j
    ensures WellFormed(A[..|A| - 1])
    ensures SourceChars(A[..|A| - 1]) == s[..p.0] && TargetChars(A[..|A| - 1]) == t[..p.1]
    ensures Cost(A[..|A| - 1], c) == Distance(s[..p.0], t[..p.1], c)
    ensures Neighbour(p, (i, j)) && Readable(p, (i, j), s, t) && StepColumn(p, (i, j), s, t) == A[|A| - 1]
    ensures Distance(s[..p.0], t[..p.1], c) + StepCost(s, t, c, p, (i, j)) == Distance(s[..i], t[..j], c)
  {
    var n := |A|;
    var init, col := A[..n - 1], A[n - 1];
    CharsInit(A, s, i);
    TargetCharsInit(A, t, j);
    p := (|SourceChars(init)|, |TargetChars(init)|);
    var a: Address := (i, j);
    ColumnIsStep(col, p, a, s, t, c);
    assert WellFormed(init);
    var before := Cost(init, c);
    var here := ColumnCost(col, c);
    assert Cost(A, c) == before + here;
    var dp := Distance(s[..p.0], t[..p.1], c);
    var da := Distance(s[..i], t[..j], c);
    NoCheaperAlignment(init, c);
    assert before >= dp;
    DistanceStepBound(s, t, c, p, a);
    assert da <= dp + here;
  }

  /** A neighbour step that is tight for the reference distance is recorded as a predecessor. */
  lemma TightStepRecorded(M: Matrix, s: string, t: string, c: Costs, p: Address, a: Address)
    requires Built(M, s, t, c)
    requires Neighbour(p, a) && a.0 <= |s| && a.1 <= |t|
    requires Distance(s[..p.0], t[..p.1], c) + StepCost(s, t, c, p, a) == Distance(s[..a.0], t[..a.1], c)
    ensures InBounds(M, a) && p in Prev(M, a)
  {
    BuiltDistance(M, s, t, c, p.0, p.1);
    BuiltDistance(M, s, t, c, a.0, a.1);
    PredecessorsExact(M, s, t, c, a);
  }

  /** One more column on an alignment that already follows the matrix, by a recorded step. */
  lemma FollowsMatrixStep(M: Matrix, s: string, t: string, A: Alignment, p: Address)
    requires |A| > 0
    requires p == Before(Positions(A[..|A| - 1]), |A| - 1)
    requires Licensed(M, [(0, 0)] + Positions(A[..|A| - 1]))
    requires ReadableTrace(Positions(A[..|A| - 1]), s, t)
    requires TraceToAlignment(Positions(A[..|A| - 1]), s, t) == A[..|A| - 1]
    requires var a := (|SourceChars(A)|, |TargetChars(A)|);
      InBounds(M, a) && p in Prev(M, a) && Readable(p, a, s, t) && StepColumn(p, a, s, t) == A[|A| - 1]
    ensures Licensed(M, [(0, 0)] + Positions(A))
    ensures ReadableTrace(Positions(A), s, t)
    ensures TraceToAlignment(Positions(A), s, t) == A
  {
    var init := A[..|A| - 1];
    var P := Positions(init);
    var a: Address := (|SourceChars(A)|, |TargetChars(A)|);
    var path := [(0, 0)] + P;
    assert path[|path| - 1] == p;
    LicensedExtend(M, path, a);
    AlignmentSnoc(P, a, s, t);
    assert Positions(A) == P + [a];
    ConsSnoc((0, 0), P, a);
    SplitLast(A);
  }

  /**
    Every optimal alignment of two prefixes walks the predecessor lists of a
    built matrix: the cells its columns end in form a licensed path from the
    origin, and converting that path back gives the alignment itself.
   */
  lemma {:induction false} OptimalAlignmentFollowsMatrix(M: Matrix, s: string, t: string, c: Costs, A: Alignment, i: nat, j: nat)
    requires Built(M, s, t, c)
    requires i <= |s| && j <= |t|
    requires WellFormed(A) && SourceChars(A) == s[..i] && TargetChars(A) == t[..j]
    requires Cost(A, c) == Distance(s[..i], t[..j], c)
    ensures Licensed(M, [(0, 0)] + Positions(A))
    ensures ReadableTrace(Positions(A), s, t)
    ensures TraceToAlignment(Positions(A), s, t) == A
    decreases |A|
  {
    if A == [] {
      assert [(0, 0)] + Positions(A) == [(0, 0)];
    } else {
      var p := OptimalLastStep(s, t, c, A, i, j);
      TightStepRecorded(M, s, t, c, p, (i, j));
      OptimalAlignmentFollowsMatrix(M, s, t, c, A[..|A| - 1], p.0, p.1);
      FollowsMatrixStep(M, s, t, A, p);
    }
  }

  /** An optimal alignment: well formed, spells both strings, and costs exactly their edit distance. */
  ghost predicate OptimalAlignment(A: Alignment, s: string, t: string, c: Costs) {
    && WellFormed(A)
    && SourceChars(A) == s
    && TargetChars(A) == t
    && Cost(A, c) == Distance(s, t, c)
  }

  /** Every trace extracted from the built matrix converts to an optimal alignment. */
  lemma ExtractedAlignmentOptimal(M: Matrix, s: string, t: string, c: Costs, tr: Trace)
    requires Built(M, s, t, c) && NonNegative(c)
    requires Ranked(M) && tr in Traces(M, (|s|, |t|))
    ensures ReadableTrace(tr, s, t)
    ensures OptimalAlignment(TraceToAlignment(tr, s, t), s, t, c)
  {
    BuiltTraces(M, s, t, c, tr);
    AlignmentCostIsDistance(M, s, t, c, tr);
    assert Before(tr, |tr|) == ([(0, 0)] + tr)[|tr|] == (|s|, |t|);
    LicensedNeighbourBounds(M, s, t, c, tr);
    AlignmentSpells(tr, s, t);
    BuiltDistance(M, s, t, c, |s|, |t|);
    assert s[..|s|] == s && t[..|t|] == t;
  }

  lemma LicensedNeighbourBounds(M: Matrix, s: string, t: string, c: Costs, tr: Trace)
    requires Built(M, s, t, c) && Licensed(M, [(0, 0)] + tr)
    ensures forall k :: 0 <= k < |tr| ==> tr[k].0 <= |s| && tr[k].1 <= |t|
  {
    forall k | 0 <= k < |tr|
      ensures tr[k].0 <= |s| && tr[k].1 <= |t|
    {
      assert ([(0, 0)] + tr)[k + 1] == tr[k];
    }
  }

  lemma OptimalAlignmentPath(M: Matrix, s: string, t: string, c: Costs, A: Alignment)
    requires Built(M, s, t, c)
    requires OptimalAlignment(A, s, t, c)
    ensures IsTraceFrom(M, (0, 0), (|s|, |t|), Positions(A))
    ensures ReadableTrace(Positions(A), s, t) && TraceToAlignment(Positions(A), s, t) == A
  {
    assert s[..|s|] == s && t[..|t|] == t;
    OptimalAlignmentFollowsMatrix(M, s, t, c, A, |s|, |t|);
    OriginIsSink(M, s, t, c);
    var P := Positions(A);
    assert ([(0, 0)] + P)[|P|] == Before(P, |P|) == (|s|, |t|);
  }

  lemma OriginIsSink(M: Matrix, s: string, t: string, c: Costs)
    requires Built(M, s, t, c)
    ensures InBounds(M, (0, 0)) && Sink(M, (0, 0))
  {
    assert CellRule(M, s, t, c, 0, 0);
  }

  /** Every optimal alignment is the conversion of some extracted trace, namely the cells its columns end in. */
  lemma OptimalAlignmentExtracted(M: Matrix, s: string, t: string, c: Costs, A: Alignment)
    requires Built(M, s, t, c) && NonNegative(c)
    requires OptimalAlignment(A, s, t, c)
    ensures Ranked(M)
    ensures Positions(A) in Traces(M, (|s|, |t|))
    ensures ReadableTrace(Positions(A), s, t) && TraceToAlignment(Positions(A), s, t) == A
  {
    BuiltRanked(M, s, t, c);
    OptimalAlignmentPath(M, s, t, c, A);
    assert IsTrace(M, (|s|, |t|), Positions(A));
    TracesComplete(M, (|s|, |t|), Positions(A));
  }

  /** The alignments of a list of traces, one per trace and in the same order. */
  predicate ConvertedFrom(alignments: seq<Alignment>, traces: seq<Trace>, s: string, t: string) {
    && |alignments| == |traces|
    && forall q :: 0 <= q < |traces| ==>
         ReadableTrace(traces[q], s, t) && alignments[q] == TraceToAlignment(traces[q], s, t)
  }

  lemma ConvertedSound(M: Matrix, s: string, t: string, c: Costs, alignments: seq<Alignment>)
    requires Built(M, s, t, c) && NonNegative(c) && Ranked(M)
    requires ConvertedFrom(alignments, Traces(M, (|s|, |t|)), s, t)
    ensures forall A :: A in alignments ==> OptimalAlignment(A, s, t, c)
  {
    var traces := Traces(M, (|s|, |t|));
    forall A | A in alignments
      ensures OptimalAlignment(A, s, t, c)
    {
      var q :| 0 <= q < |alignments| && alignments[q] == A;
      ExtractedAlignmentOptimal(M, s, t, c, traces[q]);
    }
  }

  lemma ConvertedDistinct(M: Matrix, s: string, t: string, c: Costs, alignments: seq<Alignment>)
    requires Built(M, s, t, c) && NonNegative(c) && Ranked(M)
    requires ConvertedFrom(alignments, Traces(M, (|s|, |t|)), s, t)
    ensures Distinct(alignments)
  {
    var traces := Traces(M, (|s|, |t|));
    BuiltRanked(M, s, t, c);
    TracesDistinct(M, (|s|, |t|));
    forall q, r | 0 <= q < r < |alignments|
      ensures alignments[q] != alignments[r]
    {
      if alignments[q] == alignments[r] {
        BuiltTraces(M, s, t, c, traces[q]);
        BuiltTraces(M, s, t, c, traces[r]);
        AlignmentDeterminesTrace(traces[q], traces[r], s, t);
      }
    }
  }

  lemma IndexOf<T>(xs: seq<T>, x: T) returns (q: nat)
    requires x in xs
    ensures q < |xs| && xs[q] == x
  {
    q :| q < |xs| && xs[q] == x;
  }

  lemma ConvertedAt(alignments: seq<Alignment>, traces: seq<Trace>, s: string, t: string, q: nat)
    requires ConvertedFrom(alignments, traces, s, t) && q < |traces|
    ensures ReadableTrace(traces[q], s, t) && alignments[q] == TraceToAlignment(traces[q], s, t)
    ensures alignments[q] in alignments
  {
  }

  lemma ConvertedContains(M: Matrix, s: string, t: string, c: Costs, alignments: seq<Alignment>, A: Alignment)
    requires Built(M, s, t, c) && NonNegative(c) && Ranked(M)
    requires ConvertedFrom(alignments, Traces(M, (|s|, |t|)), s, t)
    requires OptimalAlignment(A, s, t, c)
    ensures A in alignments
  {
    var traces := Traces(M, (|s|, |t|));
    var P := Positions(A);
    OptimalAlignmentExtracted(M, s, t, c, A);
    var q := IndexOf(traces, P);
    ConvertedAt(alignments, traces, s, t, q);
  }

  lemma ConvertedComplete(M: Matrix, s: string, t: string, c: Costs, alignments: seq<Alignment>)
    requires Built(M, s, t, c) && NonNegative(c) && Ranked(M)
    requires ConvertedFrom(alignments, Traces(M, (|s|, |t|)), s, t)
    ensures forall A :: OptimalAlignment(A, s, t, c) ==> A in alignments
  {
    forall A | OptimalAlignment(A, s, t, c)
      ensures A in alignments
    {
      ConvertedContains(M, s, t, c, alignments, A);
    }
  }

  /** A well-formed column carries at least one character, so a non-empty alignment spells something. */
  lemma SpellsSomething(A: Alignment)
    requires WellFormed(A) && A != []
    ensures SourceChars(A) != [] || TargetChars(A) != []
  {
    var last := A[|A| - 1];
    assert WellFormedColumn(last);
    assert last.sourceChar.Some? ==> |SourceChars(A)| >= 1;
    assert last.targetChar.Some? ==> |TargetChars(A)| >= 1;
  }

  /** Between two empty strings the empty alignment is optimal, and it is the only optimal one. */
  lemma OnlyEmptyAlignment(A: Alignment, c: Costs)
    ensures OptimalAlignment(A, [], [], c) <==> A == []
  {
    if A != [] && WellFormed(A) {
      SpellsSomething(A);
    }
  }

  /** The alignment of a string with itself that matches every character. */
  function Matches(s: string): Alignment {
    seq(|s|, k requires 0 <= k < |s| => Column(Some(s[k]), Some(s[k]), None))
  }

  /**
    With the default costs, matching every character of a string with itself
    is an optimal alignment: it spells the string on both lines and costs
    nothing, the distance of a string to itself.
   */
  lemma {:induction false} SelfAlignmentOptimal(s: string)
    ensures OptimalAlignment(Matches(s), s, s, Defaults)
    decreases |s|
  {
    DistanceToSelf(s);
    var A := Matches(s);
    if s != [] {
      var init := s[..|s| - 1];
      SelfAlignmentOptimal(init);
      DistanceToSelf(init);
      var last := A[|A| - 1];
      assert A[..|A| - 1] == Matches(init);
      assert last == Column(Some(s[|s| - 1]), Some(s[|s| - 1]), None);
      assert ColumnCost(last, Defaults) == 0;
      assert s == init + [s[|s| - 1]];
    }
  }

  /**
    The edit distance of `s` and `t` under the costs `c`, with every optimal
    alignment exactly once: one alignment per trace through the predecessor
    lists of the filled matrix.
   */
  method MinEditDistance(s: string, t: string, c: Costs) returns (d: int, alignments: seq<Alignment>)
    requires NonNegative(c)
    ensures d == Distance(s, t, c)
    ensures |alignments| >= 1 && Distinct(alignments)
    ensures forall A :: A in alignments ==> OptimalAlignment(A, s, t, c)
    ensures forall A :: OptimalAlignment(A, s, t, c) ==> A in alignments
    ensures s == [] && t == [] ==> alignments == [[]]
  {
    var M := BuildMatrix(s, t, c);
    BuiltRanked(M, s, t, c);
    BuiltDistance(M, s, t, c, |s|, |t|);
    assert s[..|s|] == s && t[..|t|] == t;
    d := M[|s|][|t|].distance;
    assert |M| - 1 == |s| && |M[0]| - 1 == |t|;
    var traces := ExtractTraces(M);
    assert traces == Traces(M, (|s|, |t|));
    forall q | 0 <= q < |traces|
      ensures ReadableTrace(traces[q], s, t)
    {
      ExtractedAlignmentOptimal(M, s, t, c, traces[q]);
    }
    alignments := seq(|traces|, q requires 0 <= q < |traces| => TraceToAlignment(traces[q], s, t));
    assert ConvertedFrom(alignments, traces, s, t);
    ConvertedSound(M, s, t, c, alignments);
    ConvertedDistinct(M, s, t, c, alignments);
    ConvertedComplete(M, s, t, c, alignments);
    if s == [] && t == [] {
      EmptyPairAlignments(c, alignments);
    }
  }

  /** A duplicate-free list has as many elements as it has entries. */
  lemma {:induction false} DistinctElements<T>(xs: seq<T>)
    requires Distinct(xs)
    ensures |set x | x in xs| == |xs|
  {
    if xs != [] {
      var tail := xs[1..];
      assert Distinct(tail) by {
        forall q, r | 0 <= q < r < |tail|
          ensures tail[q] != tail[r]
        {
          assert tail[q] == xs[q + 1] && tail[r] == xs[r + 1];
        }
      }
      DistinctElements(tail);
      assert xs[0] !in tail by {
        forall q | 0 <= q < |tail|
          ensures tail[q] != xs[0]
        {
          assert tail[q] == xs[q + 1];
        }
      }
      assert (set x | x in xs) == {xs[0]} + (set x | x in tail) by {
        assert xs == [xs[0]] + tail;
      }
    }
  }

  /** A duplicate-free, non-empty list of the optimal alignments of two empty strings is `[[]]`. */
  lemma EmptyPairAlignments(c: Costs, alignments: seq<Alignment>)
    requires |alignments| >= 1 && Distinct(alignments)
    requires forall A :: A in alignments ==> OptimalAlignment(A, [], [], c)
    ensures alignments == [[]]
  {
    forall q | 0 <= q < |alignments|
      ensures alignments[q] == []
    {
      OnlyEmptyAlignment(alignments[q], c);
    }
    DistinctElements(alignments);
    assert (set A | A in alignments) == {[]};
    assert |alignments| == 1;
  }

  // The three-line textual view.

  function SourceGlyph(col: Column): char {
    match col.sourceChar
    case Some(x) => x
    case None => '*'
  }

  function TargetGlyph(col: Column): char {
    match col.targetChar
    case Some(y) => y
    case None => '*'
  }

  function EditGlyph(col: Column): char {
    match col.edit
    case None => ' '
    case Some(Deletion) => 'd'
    case Some(Insertion) => 'i'
    case Some(Substitution) => 's'
  }

  /** One glyph per column, in column order. */
  function Glyphs(A: Alignment, glyph: Column -> char): (r: string)
    ensures |r| == |A|
    ensures forall k :: 0 <= k < |A| ==> r[k] == glyph(A[k])
  {
    if A == [] then [] else Glyphs(A[..|A| - 1], glyph) + [glyph(A[|A| - 1])]
  }

  /**
    Source row, target row and edit row, separated by newlines: an absent
    character shows as `*`, an edit as d, i or s, and a match as a space.
   */
  function AlignToString(A: Alignment): (r: string)
    ensures |r| == 3 * |A| + 2
    ensures r[|A|] == '\n' && r[2 * |A| + 1] == '\n'
    ensures forall k :: 0 <= k < |A| ==>
      && r[k] == SourceGlyph(A[k])
      && r[|A| + 1 + k] == TargetGlyph(A[k])
      && r[2 * |A| + 2 + k] == EditGlyph(A[k])
  {
    Glyphs(A, SourceGlyph) + "\n" + Glyphs(A, TargetGlyph) + "\n" + Glyphs(A, EditGlyph)
  }

  predicate NoStar(A: Alignment) {
    forall k :: 0 <= k < |A| ==> A[k].sourceChar != Some('*') && A[k].targetChar != Some('*')
  }

  /**
    The textual view loses nothing: when no character is itself `*`, two
    alignments with the same rendering are the same alignment.
   */
  lemma RenderingDeterminesAlignment(A1: Alignment, A2: Alignment)
    requires NoStar(A1) && NoStar(A2)
    requires AlignToString(A1) == AlignToString(A2)
    ensures A1 == A2
  {
    var r := AlignToString(A1);
    assert |A1| == |A2|;
    var n := |A1|;
    forall k | 0 <= k < n
      ensures A1[k] == A2[k]
    {
      assert r[k] == SourceGlyph(A1[k]) == SourceGlyph(A2[k]);
      assert r[n + 1 + k] == TargetGlyph(A1[k]) == TargetGlyph(A2[k]);
      assert r[2 * n + 2 + k] == EditGlyph(A1[k]) == EditGlyph(A2[k]);
    }
  }
  // The conversion as written reads both characters on every step, before it
  // knows which one the step uses; Python indexing lets index -1 wrap to the
  // last character but fails on an empty string.

  /** Python string indexing accepts -|s| <= k < |s|, negative indices counting from the end. */
  predicate PyIndexValid(s: string, k: int) {
    -|s| <= k < |s|
  }

  /** Both reads the source performs when a trace enters `a` succeed. */
  predicate EagerReadable(a: Address, s: string, t: string) {
    PyIndexValid(s, a.0 - 1) && PyIndexValid(t, a.1 - 1)
  }

  predicate AllEagerReadable(trace: Trace, s: string, t: string) {
    forall k :: 0 <= k < |trace| ==> EagerReadable(trace[k], s, t)
  }

  lemma AsWrittenStep(trace: Trace, s: string, t: string)
    requires ReadableTrace(trace, s, t) && |trace| > 0
    ensures ReadableTrace(trace[..|trace| - 1], s, t)
    ensures AllEagerReadable(trace, s, t) <==>
      AllEagerReadable(trace[..|trace| - 1], s, t) && EagerReadable(trace[|trace| - 1], s, t)
    ensures TraceToAlignment(trace, s, t) ==
      TraceToAlignment(trace[..|trace| - 1], s, t) + [StepColumn(Before(trace, |trace| - 1), trace[|trace| - 1], s, t)]
  {
    var init := trace[..|trace| - 1];
    ReadableInit(trace, s, t);
    BeforeInit(trace);
    SplitLast(trace);
    AlignmentSnoc(init, trace[|trace| - 1], s, t);
  }

  /**
    The conversion with the source's eager reads: `None` stands for the
    IndexError raised by the first step whose unused character does not exist.
   */
  function TraceToAlignmentAsWritten(trace: Trace, s: string, t: string): (r: Option<Alignment>)
    requires ReadableTrace(trace, s, t)
    ensures r.Some? <==> AllEagerReadable(trace, s, t)
    ensures r.Some? ==> r.value == TraceToAlignment(trace, s, t)
  {
    if trace == [] then Some([])
    else
      var n := |trace|;
      var init := trace[..n - 1];
      ReadableInit(trace, s, t);
      AsWrittenStep(trace, s, t);
      match TraceToAlignmentAsWritten(init, s, t)
      case None => None
      case Some(prefix) =>
        if EagerReadable(trace[n - 1], s, t)
        then Some(prefix + [StepColumn(Before(trace, n - 1), trace[n - 1], s, t)])
        else None
  }

  /**
    As written, every trace from an empty source to a non-empty target fails:
    its first step is an insertion into row 0, which reads index -1 of the
    empty source. The corrected conversion returns an optimal alignment.
   */
  lemma EmptySourceFailsAsWritten(M: Matrix, t: string, c: Costs, tr: Trace)
    requires Built(M, "", t, c) && NonNegative(c) && |t| > 0
    requires Ranked(M) && tr in Traces(M, (0, |t|))
    ensures ReadableTrace(tr, "", t)
    ensures TraceToAlignmentAsWritten(tr, "", t) == None
    ensures OptimalAlignment(TraceToAlignment(tr, "", t), "", t, c)
  {
    BuiltTraces(M, "", t, c, tr);
    ExtractedAlignmentOptimal(M, "", t, c, tr);
    LicensedNeighbourBounds(M, "", t, c, tr);
    assert !EagerReadable(tr[0], "", t);
  }

  /** The same for a non-empty source and an empty target: the first deletion reads index -1 of the target. */
  lemma EmptyTargetFailsAsWritten(M: Matrix, s: string, c: Costs, tr: Trace)
    requires Built(M, s, "", c) && NonNegative(c) && |s| > 0
    requires Ranked(M) && tr in Traces(M, (|s|, 0))
    ensures ReadableTrace(tr, s, "")
    ensures TraceToAlignmentAsWritten(tr, s, "") == None
    ensures OptimalAlignment(TraceToAlignment(tr, s, ""), s, "", c)
  {
    BuiltTraces(M, s, "", c, tr);
    ExtractedAlignmentOptimal(M, s, "", c, tr);
    LicensedNeighbourBounds(M, s, "", c, tr);
    assert !EagerReadable(tr[0], s, "");
  }

  /** With both strings non-empty every eager read succeeds, so the code as written agrees with the corrected conversion. */
  lemma NonEmptyAgreesAsWritten(trace: Trace, s: string, t: string)
    requires ReadableTrace(trace, s, t) && |s| > 0 && |t| > 0
    requires forall k :: 0 <= k < |trace| ==> trace[k].0 <= |s| && trace[k].1 <= |t|
    ensures TraceToAlignmentAsWritten(trace, s, t) == Some(TraceToAlignment(trace, s, t))
  {
  }
}
