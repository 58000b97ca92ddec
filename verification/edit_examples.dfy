/**
  The unit-test cases of the edit-distance code, stated about the model:
  hand-built matrices for trace extraction, and fixed traces for the
  conversion to alignments and their textual view.
 */
module EditDistanceExamples {
  import opened Wrappers
  import opened EditDistance
  import opened TraceExtraction
  import opened Alignments

  // Hand-built matrices.

  const NullCase: Matrix := [[Cell(0, [])]]
  const SingleInsertion: Matrix := [[Cell(0, []), Cell(1, [(0, 0)])]]
  const SingleDeletion: Matrix := [[Cell(0, [])], [Cell(1, [(0, 0)])]]
  const TwoByTwo: Matrix :=
    [[Cell(0, []), Cell(1, [(0, 0)])],
     [Cell(1, [(0, 0)]), Cell(2, [(0, 1), (1, 0)])]]
  /** Its predecessors are not all neighbours, but each lies strictly below its cell. */
  const UpAndLeft: Matrix :=
    [[Cell(0, []), Cell(1, [(0, 0)]), Cell(2, [(1, 0)])],
     [Cell(1, [(0, 0)]), Cell(2, [(1, 0), (0, 1)]), Cell(3, [(2, 0), (1, 1)])],
     [Cell(2, [(1, 0)]), Cell(3, [(1, 1), (2, 0)]), Cell(4, [(1, 2), (2, 1)])]]

  lemma ExtendSingle(t: Trace, a: Address)
    ensures Extend([t], a) == [t + [a]]
  {
    var r := Extend([t], a);
    assert |r| == 1 && r[0] == t + [a];
  }

  lemma TracesAtSink(M: Matrix, a: Address)
    requires Ranked(M) && InBounds(M, a) && Prev(M, a) == []
    ensures Traces(M, a) == [[]]
  {
  }

  lemma TracesViaCons(M: Matrix, a: Address, ps: seq<Address>)
    requires Ranked(M) && InBounds(M, a) && ps != []
    requires forall p :: p in ps ==> p in Prev(M, a)
    ensures CellRanked(M, a) && InBounds(M, ps[0])
    ensures TracesVia(M, a, ps) == Extend(Traces(M, ps[0]), a) + TracesVia(M, a, ps[1..])
  {
    assert CellRanked(M, a);
  }

  lemma TracesViaSingle(M: Matrix, a: Address, q: Address)
    requires Ranked(M) && InBounds(M, a) && q in Prev(M, a)
    ensures CellRanked(M, a) && InBounds(M, q)
    ensures TracesVia(M, a, [q]) == Extend(Traces(M, q), a)
  {
    TracesViaCons(M, a, [q]);
    assert [q][1..] == [];
    assert TracesVia(M, a, []) == [];
  }

  lemma TracesOneWay(M: Matrix, a: Address, p: Address)
    requires Ranked(M) && InBounds(M, a) && Prev(M, a) == [p]
    ensures InBounds(M, p)
    ensures Traces(M, a) == Extend(Traces(M, p), a)
  {
    TracesViaSingle(M, a, p);
    assert Traces(M, a) == TracesVia(M, a, [p]);
  }

  lemma TracesTwoWays(M: Matrix, a: Address, p: Address, q: Address)
    requires Ranked(M) && InBounds(M, a) && Prev(M, a) == [p, q]
    ensures InBounds(M, p) && InBounds(M, q)
    ensures Traces(M, a) == Extend(Traces(M, p), a) + Extend(Traces(M, q), a)
  {
    TracesViaCons(M, a, [p, q]);
    assert [p, q][1..] == [q];
    TracesViaSingle(M, a, q);
    assert Traces(M, a) == TracesVia(M, a, [p, q]);
  }

  /** A cell whose only predecessor is a sink has the single trace [a]. */
  lemma OneStepTraces(M: Matrix, a: Address, p: Address)
    requires Ranked(M) && InBounds(M, a) && Prev(M, a) == [p]
    requires InBounds(M, p) && Prev(M, p) == []
    ensures Traces(M, a) == [[a]]
  {
    TracesOneWay(M, a, p);
    TracesAtSink(M, p);
    ExtendSingle([], a);
    assert [] + [a] == [a];
  }

  lemma CountOneWay(M: Matrix, a: Address, p: Address)
    requires Ranked(M) && InBounds(M, a) && Prev(M, a) == [p]
    ensures InBounds(M, p) && |Traces(M, a)| == |Traces(M, p)|
  {
    TracesOneWay(M, a, p);
  }

  lemma CountTwoWays(M: Matrix, a: Address, p: Address, q: Address)
    requires Ranked(M) && InBounds(M, a) && Prev(M, a) == [p, q]
    ensures InBounds(M, p) && InBounds(M, q)
    ensures |Traces(M, a)| == |Traces(M, p)| + |Traces(M, q)|
  {
    TracesTwoWays(M, a, p, q);
  }

  lemma NullCaseTraces()
    ensures Ranked(NullCase) && Rectangular(NullCase)
    ensures ExtractTraces(NullCase) == [[]]
  {
    assert CellRanked(NullCase, (0, 0));
  }

  /** A matrix whose bottom-right cell steps straight back to the sink at the origin. */
  lemma SingleStepMatrixTraces(M: Matrix)
    requires Ranked(M) && Rectangular(M)
    requires Prev(M, (0, 0)) == []
    requires (|M| - 1, |M[0]| - 1) != (0, 0) && Prev(M, (|M| - 1, |M[0]| - 1)) == [(0, 0)]
    ensures ExtractTraces(M) == [[(|M| - 1, |M[0]| - 1)]]
  {
    OneStepTraces(M, (|M| - 1, |M[0]| - 1), (0, 0));
  }

  lemma SingleInsertionTraces()
    ensures Ranked(SingleInsertion) && Rectangular(SingleInsertion)
    ensures ExtractTraces(SingleInsertion) == [[(0, 1)]]
  {
    var M := SingleInsertion;
    assert CellRanked(M, (0, 0)) && CellRanked(M, (0, 1));
    assert Ranked(M);
    SingleStepMatrixTraces(M);
  }

  lemma SingleDeletionTraces()
    ensures Ranked(SingleDeletion) && Rectangular(SingleDeletion)
    ensures ExtractTraces(SingleDeletion) == [[(1, 0)]]
  {
    var M := SingleDeletion;
    assert CellRanked(M, (0, 0)) && CellRanked(M, (1, 0));
    assert Ranked(M);
    SingleStepMatrixTraces(M);
  }

  lemma TwoByTwoRanked()
    ensures Ranked(TwoByTwo) && Rectangular(TwoByTwo)
  {
    var M := TwoByTwo;
    assert CellRanked(M, (0, 0));
    assert CellRanked(M, (0, 1));
    assert CellRanked(M, (1, 0));
    assert CellRanked(M, (1, 1));
  }

  lemma ExtendPair(p: Address, q: Address, a: Address)
    ensures Extend([[p]], a) + Extend([[q]], a) == [[p, a], [q, a]]
  {
    ExtendSingle([p], a);
    ExtendSingle([q], a);
    assert [p] + [a] == [p, a];
    assert [q] + [a] == [q, a];
  }

  /** A cell reached from two cells that each have the single trace ending there. */
  lemma TwoWaysFromSingles(M: Matrix, a: Address, p: Address, q: Address)
    requires Ranked(M) && InBounds(M, a) && Prev(M, a) == [p, q]
    requires InBounds(M, p) && InBounds(M, q)
    requires Traces(M, p) == [[p]] && Traces(M, q) == [[q]]
    ensures Traces(M, a) == [[p, a], [q, a]]
  {
    TracesTwoWays(M, a, p, q);
    ExtendPair(p, q, a);
  }

  /** A 2x2 matrix whose corner has both one-step neighbours as predecessors has two traces. */
  lemma DiamondTraces(M: Matrix)
    requires Ranked(M) && Rectangular(M) && |M| == 2 && |M[0]| == 2
    requires Prev(M, (0, 0)) == [] && Prev(M, (0, 1)) == [(0, 0)] && Prev(M, (1, 0)) == [(0, 0)]
    requires Prev(M, (1, 1)) == [(0, 1), (1, 0)]
    ensures ExtractTraces(M) == [[(0, 1), (1, 1)], [(1, 0), (1, 1)]]
  {
    OneStepTraces(M, (0, 1), (0, 0));
    OneStepTraces(M, (1, 0), (0, 0));
    TwoWaysFromSingles(M, (1, 1), (0, 1), (1, 0));
  }

  lemma TwoByTwoTraces()
    ensures Ranked(TwoByTwo) && Rectangular(TwoByTwo)
    ensures |ExtractTraces(TwoByTwo)| == 2
    ensures [(0, 1), (1, 1)] in ExtractTraces(TwoByTwo)
    ensures [(1, 0), (1, 1)] in ExtractTraces(TwoByTwo)
  {
    TwoByTwoRanked();
    DiamondTraces(TwoByTwo);
  }

  lemma UpAndLeftRanked()
    ensures Ranked(UpAndLeft) && Rectangular(UpAndLeft)
  {
    var M := UpAndLeft;
    forall a: Address | InBounds(M, a)
      ensures CellRanked(M, a)
    {
      assert a.0 in {0, 1, 2} && a.1 in {0, 1, 2};
    }
  }

  /** Trace counts of a 3x3 matrix wired like the up-and-left test: 1, 1, 1, 2, 3, 3, 6 at the corner. */
  lemma UpAndLeftCount(M: Matrix)
    requires Ranked(M) && Rectangular(M) && |M| == 3 && |M[0]| == 3
    requires Prev(M, (0, 0)) == []
    requires Prev(M, (1, 0)) == [(0, 0)] && Prev(M, (0, 1)) == [(0, 0)] && Prev(M, (2, 0)) == [(1, 0)]
    requires Prev(M, (1, 1)) == [(1, 0), (0, 1)] && Prev(M, (1, 2)) == [(2, 0), (1, 1)]
    requires Prev(M, (2, 1)) == [(1, 1), (2, 0)] && Prev(M, (2, 2)) == [(1, 2), (2, 1)]
    ensures |ExtractTraces(M)| == 6
  {
    TracesAtSink(M, (0, 0));
    CountOneWay(M, (1, 0), (0, 0));
    CountOneWay(M, (0, 1), (0, 0));
    CountOneWay(M, (2, 0), (1, 0));
    CountTwoWays(M, (1, 1), (1, 0), (0, 1));
    CountTwoWays(M, (1, 2), (2, 0), (1, 1));
    CountTwoWays(M, (2, 1), (1, 1), (2, 0));
    CountTwoWays(M, (2, 2), (1, 2), (2, 1));
  }

  lemma UpAndLeftTraces()
    ensures Ranked(UpAndLeft) && Rectangular(UpAndLeft)
    ensures |ExtractTraces(UpAndLeft)| == 6
  {
    UpAndLeftRanked();
    UpAndLeftCount(UpAndLeft);
  }

  // Conversion of fixed traces.

  lemma EmptyTraceAlignment()
    ensures ReadableTrace([], "", "") && TraceToAlignment([], "", "") == []
  {
  }

  /** The insertion test: corrected, one insertion column; as written, an IndexError on the empty source. */
  lemma InsertionAlignment()
    ensures ReadableTrace([(0, 1)], "", "I")
    ensures TraceToAlignment([(0, 1)], "", "I") == [Column(None, Some('I'), Some(Insertion))]
    ensures TraceToAlignmentAsWritten([(0, 1)], "", "I") == None
  {
    assert Readable(Before([(0, 1)], 0), (0, 1), "", "I");
    ColumnsAreSteps([(0, 1)], "", "I");
    assert !EagerReadable((0, 1), "", "I");
  }

  /** The deletion test: corrected, one deletion column; as written, an IndexError on the empty target. */
  lemma DeletionAlignment()
    ensures ReadableTrace([(1, 0)], "I", "")
    ensures TraceToAlignment([(1, 0)], "I", "") == [Column(Some('I'), None, Some(Deletion))]
    ensures TraceToAlignmentAsWritten([(1, 0)], "I", "") == None
  {
    assert Readable(Before([(1, 0)], 0), (1, 0), "I", "");
    ColumnsAreSteps([(1, 0)], "I", "");
    assert !EagerReadable((1, 0), "I", "");
  }

  lemma SubstitutionAlignment()
    ensures ReadableTrace([(1, 1)], "I", "U")
    ensures TraceToAlignment([(1, 1)], "I", "U") == [Column(Some('I'), Some('U'), Some(Substitution))]
    ensures TraceToAlignmentAsWritten([(1, 1)], "I", "U") == Some(TraceToAlignment([(1, 1)], "I", "U"))
  {
    assert Readable(Before([(1, 1)], 0), (1, 1), "I", "U");
    ColumnsAreSteps([(1, 1)], "I", "U");
  }

  const IntentionTrace: Trace :=
    [(1, 0), (2, 1), (3, 2), (4, 3), (4, 4), (5, 5), (6, 6), (7, 7), (8, 8), (9, 9)]

  lemma IntentionReadable(s: string, t: string)
    requires |s| == 9 && |t| == 9
    ensures ReadableTrace(IntentionTrace, s, t)
  {
    NeighbourStepsReadable(IntentionTrace, s, t);
  }

  /** An alignment agreeing column by column with the steps of a readable trace is its conversion. */
  lemma AlignmentIs(trace: Trace, s: string, t: string, A: Alignment)
    requires ReadableTrace(trace, s, t) && |A| == |trace|
    requires forall k :: 0 <= k < |trace| ==> A[k] == StepColumn(Before(trace, k), trace[k], s, t)
    ensures TraceToAlignment(trace, s, t) == A
  {
    ColumnsAreSteps(trace, s, t);
  }

  /** The columns of the textbook intention/execution alignment, lower case. */
  const IntentionLower: Alignment :=
    [Column(Some('i'), None, Some(Deletion)),
     Column(Some('n'), Some('e'), Some(Substitution)),
     Column(Some('t'), Some('x'), Some(Substitution)),
     Column(Some('e'), Some('e'), None),
     Column(None, Some('c'), Some(Insertion)),
     Column(Some('n'), Some('u'), Some(Substitution)),
     Column(Some('t'), Some('t'), None),
     Column(Some('i'), Some('i'), None),
     Column(Some('o'), Some('o'), None),
     Column(Some('n'), Some('n'), None)]

  lemma IntentionAlignment()
    ensures ReadableTrace(IntentionTrace, "intention", "execution")
    ensures TraceToAlignment(IntentionTrace, "intention", "execution") == IntentionLower
  {
    var s, t := "intention", "execution";
    IntentionReadable(s, t);
    var A := IntentionLower;
    forall k | 0 <= k < |IntentionTrace|
      ensures A[k] == StepColumn(Before(IntentionTrace, k), IntentionTrace[k], s, t)
    {
      assert k in {0, 1, 2, 3, 4, 5, 6, 7, 8, 9};
    }
    AlignmentIs(IntentionTrace, s, t, A);
  }

  /** One deletion, three substitutions and one insertion: 1 + 2 + 2 + 1 + 2 = 8. */
  lemma IntentionLowerCost()
    ensures Cost(IntentionLower, Defaults) == 8
  {
    var A := IntentionLower;
    assert Cost(A[..1], Defaults) == 1;
    assert Cost(A[..2], Defaults) == 3 by { assert A[..2][..1] == A[..1]; }
    assert Cost(A[..3], Defaults) == 5 by { assert A[..3][..2] == A[..2]; }
    assert Cost(A[..4], Defaults) == 5 by { assert A[..4][..3] == A[..3]; }
    assert Cost(A[..5], Defaults) == 6 by { assert A[..5][..4] == A[..4]; }
    assert Cost(A[..6], Defaults) == 8 by { assert A[..6][..5] == A[..5]; }
    assert Cost(A[..7], Defaults) == 8 by { assert A[..7][..6] == A[..6]; }
    assert Cost(A[..8], Defaults) == 8 by { assert A[..8][..7] == A[..7]; }
    assert Cost(A[..9], Defaults) == 8 by { assert A[..9][..8] == A[..8]; }
    assert A[..10] == A;
  }

  /** The conversion of a neighbour-step trace from (0, 0) to (|s|, |t|) is optimal once it costs the distance. */
  lemma ConvertedOptimal(trace: Trace, s: string, t: string, c: Costs, A: Alignment)
    requires NeighbourSteps([(0, 0)] + trace)
    requires forall k :: 0 <= k < |trace| ==> trace[k].0 <= |s| && trace[k].1 <= |t|
    requires Before(trace, |trace|) == (|s|, |t|)
    requires ReadableTrace(trace, s, t) && TraceToAlignment(trace, s, t) == A
    requires Cost(A, c) == Distance(s, t, c)
    ensures OptimalAlignment(A, s, t, c)
  {
    AlignmentSpells(trace, s, t);
    assert s[..|s|] == s && t[..|t|] == t;
  }

  /** Every step of the intention trace stays within the two nine-letter words. */
  lemma IntentionTraceBounds()
    ensures NeighbourSteps([(0, 0)] + IntentionTrace)
    ensures forall k :: 0 <= k < |IntentionTrace| ==> IntentionTrace[k].0 <= 9 && IntentionTrace[k].1 <= 9
    ensures Before(IntentionTrace, |IntentionTrace|) == (9, 9)
  {
    assert NeighbourSteps([(0, 0)] + IntentionTrace) by {
      IntentionReadable("intention", "execution");
    }
  }

  /**
    The test's textbook alignment of "intention" with "execution" is optimal
    under the default costs, so the entry point returns it among its
    alignments.
   */
  lemma IntentionAlignmentOptimal()
    ensures OptimalAlignment(IntentionLower, "intention", "execution", Defaults)
  {
    IntentionAlignment();
    IntentionTraceBounds();
    IntentionLowerCost();
    IntentionDistance();
    ConvertedOptimal(IntentionTrace, "intention", "execution", Defaults, IntentionLower);
  }

  // The textual view.

  lemma EmptyRendering()
    ensures AlignToString([]) == "\n\n"
  {
  }

  lemma InsertionRendering()
    ensures AlignToString([Column(None, Some('E'), Some(Insertion))]) == "*\nE\ni"
  {
  }

  lemma DeletionRendering()
    ensures AlignToString([Column(Some('I'), None, Some(Deletion))]) == "I\n*\nd"
  {
  }

  lemma SubstitutionRendering()
    ensures AlignToString([Column(Some('I'), Some('E'), Some(Substitution))]) == "I\nE\ns"
  {
  }

  const IntentionColumns: Alignment :=
    [Column(Some('I'), None, Some(Deletion)),
     Column(Some('N'), Some('E'), Some(Substitution)),
     Column(Some('T'), Some('X'), Some(Substitution)),
     Column(Some('E'), Some('E'), None),
     Column(None, Some('C'), Some(Insertion)),
     Column(Some('N'), Some('U'), Some(Substitution)),
     Column(Some('T'), Some('T'), None),
     Column(Some('I'), Some('I'), None),
     Column(Some('O'), Some('O'), None),
     Column(Some('N'), Some('N'), None)]

  lemma RowIs(A: Alignment, glyph: Column -> char, row: string)
    requires |row| == |A|
    requires forall k :: 0 <= k < |A| ==> glyph(A[k]) == row[k]
    ensures Glyphs(A, glyph) == row
  {
  }

  lemma IntentionRow(glyph: Column -> char, row: string)
    requires |row| == 10
    requires forall k :: 0 <= k < 10 ==> glyph(IntentionColumns[k]) == row[k]
    ensures Glyphs(IntentionColumns, glyph) == row
  {
    RowIs(IntentionColumns, glyph, row);
  }

  lemma IntentionSourceRow()
    ensures Glyphs(IntentionColumns, SourceGlyph) == "INTE*NTION"
  {
    forall k | 0 <= k < 10
      ensures SourceGlyph(IntentionColumns[k]) == "INTE*NTION"[k]
    {
      assert k in {0, 1, 2, 3, 4, 5, 6, 7, 8, 9};
    }
    IntentionRow(SourceGlyph, "INTE*NTION");
  }

  lemma IntentionTargetRow()
    ensures Glyphs(IntentionColumns, TargetGlyph) == "*EXECUTION"
  {
    forall k | 0 <= k < 10
      ensures TargetGlyph(IntentionColumns[k]) == "*EXECUTION"[k]
    {
      assert k in {0, 1, 2, 3, 4, 5, 6, 7, 8, 9};
    }
    IntentionRow(TargetGlyph, "*EXECUTION");
  }

  lemma IntentionEditRow()
    ensures Glyphs(IntentionColumns, EditGlyph) == "dss is    "
  {
    forall k | 0 <= k < 10
      ensures EditGlyph(IntentionColumns[k]) == "dss is    "[k]
    {
      assert k in {0, 1, 2, 3, 4, 5, 6, 7, 8, 9};
    }
    IntentionRow(EditGlyph, "dss is    ");
  }

  lemma RenderingIs(A: Alignment, source: string, target: string, edits: string)
    requires Glyphs(A, SourceGlyph) == source && Glyphs(A, TargetGlyph) == target
    requires Glyphs(A, EditGlyph) == edits
    ensures AlignToString(A) == source + "\n" + target + "\n" + edits
  {
  }

  /** The three rows of the test's expected text, joined by newlines. */
  lemma IntentionColumnsRendering()
    ensures AlignToString(IntentionColumns) == "INTE*NTION" + "\n" + "*EXECUTION" + "\n" + "dss is    "
  {
    IntentionSourceRow();
    IntentionTargetRow();
    IntentionEditRow();
    RenderingIs(IntentionColumns, "INTE*NTION", "*EXECUTION", "dss is    ");
  }

  lemma IntentionRendering()
    ensures ReadableTrace(IntentionTrace, "INTENTION", "EXECUTION")
    ensures AlignToString(TraceToAlignment(IntentionTrace, "INTENTION", "EXECUTION"))
      == "INTE*NTION" + "\n" + "*EXECUTION" + "\n" + "dss is    "
  {
    var s, t := "INTENTION", "EXECUTION";
    IntentionReadable(s, t);
    forall k | 0 <= k < |IntentionTrace|
      ensures IntentionColumns[k] == StepColumn(Before(IntentionTrace, k), IntentionTrace[k], s, t)
    {
      assert k in {0, 1, 2, 3, 4, 5, 6, 7, 8, 9};
    }
    AlignmentIs(IntentionTrace, s, t, IntentionColumns);
    IntentionColumnsRendering();
  }

  // The reference distance of the textbook pair, cell by cell.

  /** The distances of all prefixes of "intention" (rows) and "execution" (columns) under the default costs. */
  const IntentionTable: seq<seq<int>> :=
    [[0, 1, 2, 3, 4, 5, 6, 7, 8, 9],
     [1, 2, 3, 4, 5, 6, 7, 6, 7, 8],
     [2, 3, 4, 5, 6, 7, 8, 7, 8, 7],
     [3, 4, 5, 6, 7, 8, 7, 8, 9, 8],
     [4, 3, 4, 5, 6, 7, 8, 9, 10, 9],
     [5, 4, 5, 6, 7, 8, 9, 10, 11, 10],
     [6, 5, 6, 7, 8, 9, 8, 9, 10, 11],
     [7, 6, 7, 8, 9, 10, 9, 8, 9, 10],
     [8, 7, 8, 9, 10, 11, 10, 9, 8, 9],
     [9, 8, 9, 10, 11, 12, 11, 10, 9, 8]]

  /** The table's border counts one deletion or insertion per character. */
  lemma IntentionTableBorder(k: nat)
    requires k <= 9
    ensures IntentionTable[k][0] == k && IntentionTable[0][k] == k
  {
    assert k in {0, 1, 2, 3, 4, 5, 6, 7, 8, 9};
  }

  /** An interior entry of the table is the cheapest of its three candidates. */
  lemma IntentionTableCell(i: nat, j: nat)
    requires 1 <= i <= 9 && 1 <= j <= 9
    ensures IntentionTable[i][j] == Min3(IntentionTable[i - 1][j] + 1, IntentionTable[i][j - 1] + 1,
                                         IntentionTable[i - 1][j - 1] + ZeroOrTwo("intention"[i - 1], "execution"[j - 1]))
  {
    assert i in {1, 2, 3, 4, 5, 6, 7, 8, 9};
    assert j in {1, 2, 3, 4, 5, 6, 7, 8, 9};
  }

  /** A table of the default-cost recurrence over `s` and `t`: its border counts characters, its interior takes the cheapest candidate. */
  predicate DefaultTable(D: seq<seq<int>>, s: string, t: string) {
    && |D| == |s| + 1
    && (forall r :: 0 <= r < |D| ==> |D[r]| == |t| + 1)
    && (forall k :: 0 <= k <= |s| ==> D[k][0] == k)
    && (forall k :: 0 <= k <= |t| ==> D[0][k] == k)
    && (forall i, j :: 1 <= i <= |s| && 1 <= j <= |t| ==> TableCell(D, s, t, i, j))
  }

  /** An interior entry is the cheapest of its three candidates. */
  predicate TableCell(D: seq<seq<int>>, s: string, t: string, i: nat, j: nat)
    requires 1 <= i < |D| && 1 <= j < |D[i]| && j < |D[i - 1]|
    requires i <= |s| && j <= |t|
  {
    D[i][j] == Min3(D[i - 1][j] + 1, D[i][j - 1] + 1, D[i - 1][j - 1] + ZeroOrTwo(s[i - 1], t[j - 1]))
  }

  /** A border entry is the reference distance once the entry before it is. */
  lemma TableBorder(D: seq<seq<int>>, s: string, t: string, i: nat, j: nat)
    requires DefaultTable(D, s, t)
    requires i <= |s| && j <= |t| && (i == 0 || j == 0)
    requires i > 0 ==> Distance(s[..i - 1], t[..j], Defaults) == D[i - 1][j]
    requires j > 0 ==> Distance(s[..i], t[..j - 1], Defaults) == D[i][j - 1]
    ensures Distance(s[..i], t[..j], Defaults) == D[i][j]
  {
    DistanceUnfold(s, t, Defaults, i, j);
  }

  /** An interior entry is the reference distance once its three neighbours are. */
  lemma TableInterior(D: seq<seq<int>>, s: string, t: string, i: nat, j: nat)
    requires DefaultTable(D, s, t)
    requires 0 < i <= |s| && 0 < j <= |t|
    requires Distance(s[..i - 1], t[..j], Defaults) == D[i - 1][j]
    requires Distance(s[..i], t[..j - 1], Defaults) == D[i][j - 1]
    requires Distance(s[..i - 1], t[..j - 1], Defaults) == D[i - 1][j - 1]
    ensures Distance(s[..i], t[..j], Defaults) == D[i][j]
  {
    DistanceUnfold(s, t, Defaults, i, j);
    assert TableCell(D, s, t, i, j);
  }

  /** Each entry of such a table is the reference distance of the two prefixes it stands for. */
  lemma {:induction false} TablePrefixDistance(D: seq<seq<int>>, s: string, t: string, i: nat, j: nat)
    requires DefaultTable(D, s, t)
    requires i <= |s| && j <= |t|
    ensures Distance(s[..i], t[..j], Defaults) == D[i][j]
    decreases i + j
  {
    if i == 0 || j == 0 {
      if i > 0 {
        TablePrefixDistance(D, s, t, i - 1, j);
      }
      if j > 0 {
        TablePrefixDistance(D, s, t, i, j - 1);
      }
      TableBorder(D, s, t, i, j);
    } else {
      TablePrefixDistance(D, s, t, i - 1, j);
      TablePrefixDistance(D, s, t, i, j - 1);
      TablePrefixDistance(D, s, t, i - 1, j - 1);
      TableInterior(D, s, t, i, j);
    }
  }

  /** Under the default costs "intention" is at distance 8 from "execution". */
  lemma IntentionDistance()
    ensures Distance("intention", "execution", Defaults) == 8
  {
    var s, t := "intention", "execution";
    forall k | 0 <= k <= 9
      ensures IntentionTable[k][0] == k && IntentionTable[0][k] == k
    {
      IntentionTableBorder(k);
    }
    forall i, j | 1 <= i <= 9 && 1 <= j <= 9
      ensures TableCell(IntentionTable, s, t, i, j)
    {
      IntentionTableCell(i, j);
    }
    assert DefaultTable(IntentionTable, s, t);
    TablePrefixDistance(IntentionTable, s, t, 9, 9);
    assert s[..9] == s && t[..9] == t;
  }
}
