/**
  The minimum-edit-distance matrix of Jurafsky & Martin (Speech and Language
  Processing, chapter 2): every cell holds the cheapest cost of turning a
  source prefix into a target prefix, together with ALL neighbouring cells
  through which that cost is reached.
 */
module EditDistance {
  import opened Wrappers

  /** The three cost-bearing edits; a match is the absence of an edit. */
  datatype Edit = Deletion | Insertion | Substitution

  /** One column of an alignment: an absent character is `None`, a match has no edit. */
  datatype Column = Column(sourceChar: Option<char>, targetChar: Option<char>, edit: Option<Edit>)

  type Alignment = seq<Column>

  /** A matrix position (row i, column j); row 0 and column 0 stand for the empty prefix. */
  type Address = (nat, nat)

  /** A matrix cell: the distance and every neighbour that achieves it, in the order up, left, diagonal. */
  datatype Cell = Cell(distance: int, previous: seq<Address>)

  type Matrix = seq<seq<Cell>>

  /** The pluggable cost model: deletion, insertion and substitution costs. */
  datatype Costs = Costs(del: char -> int, ins: char -> int, sub: (char, char) -> int)

  /** Default deletion and insertion cost. */
  function One(c: char): int {
    1
  }

  /** Default substitution cost: free for equal characters, otherwise dearer than a deletion plus an insertion would suggest. */
  function ZeroOrTwo(a: char, b: char): int {
    if a == b then 0 else 2
  }

  const Defaults: Costs := Costs(One, One, ZeroOrTwo)

  /** The cost model's documented precondition: no cost is negative. */
  predicate NonNegative(c: Costs) {
    && (forall x :: c.del(x) >= 0)
    && (forall x :: c.ins(x) >= 0)
    && (forall x, y :: c.sub(x, y) >= 0)
  }

  function Min3(a: int, b: int, c: int): (r: int)
    ensures r <= a && r <= b && r <= c
    ensures r == a || r == b || r == c
  {
    if a <= b && a <= c then a else if b <= c then b else c
  }

  /**
    Reference definition of the edit distance, by recursion on the two strings
    (the last character is deleted, inserted or substituted).
   */
  ghost function Distance(s: string, t: string, c: Costs): int
    decreases |s| + |t|
  {
    if |s| == 0 && |t| == 0 then 0
    else if |t| == 0 then Distance(s[..|s| - 1], t, c) + c.del(s[|s| - 1])
    else if |s| == 0 then Distance(s, t[..|t| - 1], c) + c.ins(t[|t| - 1])
    else Min3(Distance(s[..|s| - 1], t, c) + c.del(s[|s| - 1]),
              Distance(s, t[..|t| - 1], c) + c.ins(t[|t| - 1]),
              Distance(s[..|s| - 1], t[..|t| - 1], c) + c.sub(s[|s| - 1], t[|t| - 1]))
  }

  // The three steps a path may take into a cell.

  /** Deletion step: from the cell above. */
  predicate Up(p: Address, a: Address) {
    p.0 + 1 == a.0 && p.1 == a.1
  }

  /** Insertion step: from the cell to the left. */
  predicate Left(p: Address, a: Address) {
    p.0 == a.0 && p.1 + 1 == a.1
  }

  /** Substitution or match step: from the diagonal cell. */
  predicate Diag(p: Address, a: Address) {
    p.0 + 1 == a.0 && p.1 + 1 == a.1
  }

  predicate Neighbour(p: Address, a: Address) {
    Up(p, a) || Left(p, a) || Diag(p, a)
  }

  /** The cost of the edit performed by stepping from `p` into `a`. */
  function StepCost(s: string, t: string, c: Costs, p: Address, a: Address): int
    requires Neighbour(p, a) && a.0 <= |s| && a.1 <= |t|
  {
    if Left(p, a) then c.ins(t[a.1 - 1])
    else if Up(p, a) then c.del(s[a.0 - 1])
    else c.sub(s[a.0 - 1], t[a.1 - 1])
  }

  /** The interior cell for candidate costs via deletion, insertion and substitution. */
  function Interior(i: nat, j: nat, viaDel: int, viaIns: int, viaSub: int): Cell
    requires i >= 1 && j >= 1
  {
    var d := Min3(viaDel, viaIns, viaSub);
    Cell(d, (if viaDel == d then [(i - 1, j)] else [])
            + (if viaIns == d then [(i, j - 1)] else [])
            + (if viaSub == d then [(i - 1, j - 1)] else []))
  }

  /** The cell at (i, j) is what the dynamic program puts there, given its already-filled neighbours. */
  predicate CellRule(M: Matrix, s: string, t: string, c: Costs, i: nat, j: nat)
    requires i <= |s| && j <= |t|
    requires i < |M| && j < |M[i]| && (i > 0 ==> j < |M[i - 1]|)
  {
    if i == 0 && j == 0 then M[0][0] == Cell(0, [])
    else if j == 0 then M[i][0] == Cell(M[i - 1][0].distance + c.del(s[i - 1]), [(i - 1, 0)])
    else if i == 0 then M[0][j] == Cell(M[0][j - 1].distance + c.ins(t[j - 1]), [(0, j - 1)])
    else M[i][j] == Interior(i, j, M[i - 1][j].distance + c.del(s[i - 1]),
                                   M[i][j - 1].distance + c.ins(t[j - 1]),
                                   M[i - 1][j - 1].distance + c.sub(s[i - 1], t[j - 1]))
  }

  predicate Shaped(M: Matrix, n: nat, m: nat) {
    |M| == n + 1 && forall i :: 0 <= i < |M| ==> |M[i]| == m + 1
  }

  /** M is the completed (|s|+1) x (|t|+1) distance matrix of s and t under c. */
  predicate Built(M: Matrix, s: string, t: string, c: Costs) {
    && Shaped(M, |s|, |t|)
    && forall i, j :: 0 <= i <= |s| && 0 <= j <= |t| ==> CellRule(M, s, t, c, i, j)
  }

  /** The cell the dynamic program puts at (i, j), given the rows above and the cells to the left. */
  method NextCell(M: Matrix, row: seq<Cell>, s: string, t: string, c: Costs, i: nat, j: nat) returns (cell: Cell)
    requires i <= |s| && j <= |t| && |M| == i && |row| == j
    requires i > 0 ==> |M[i - 1]| == |t| + 1
    ensures CellRule(M + [row + [cell]], s, t, c, i, j)
  {
    if i == 0 && j == 0 {
      cell := Cell(0, []);
    } else if j == 0 {
      cell := Cell(M[i - 1][0].distance + c.del(s[i - 1]), [(i - 1, 0)]);
    } else if i == 0 {
      cell := Cell(row[j - 1].distance + c.ins(t[j - 1]), [(0, j - 1)]);
    } else {
      var viaDeletion := M[i - 1][j].distance + c.del(s[i - 1]);
      var viaInsertion := row[j - 1].distance + c.ins(t[j - 1]);
      var viaSubstitution := M[i - 1][j - 1].distance + c.sub(s[i - 1], t[j - 1]);
      var minimum := Min3(viaDeletion, viaInsertion, viaSubstitution);
      var previous: seq<Address> := [];
      if minimum == viaDeletion {
        previous := previous + [(i - 1, j)];
      }
      if minimum == viaInsertion {
        previous := previous + [(i, j - 1)];
      }
      if minimum == viaSubstitution {
        previous := previous + [(i - 1, j - 1)];
      }
      cell := Cell(minimum, previous);
    }
    var M' := M + [row + [cell]];
    assert M'[i] == row + [cell];
    assert i > 0 ==> M'[i - 1] == M[i - 1];
  }

  /** Appending a cell to the row under construction keeps the rule of the cells already in it. */
  lemma RowFrame(M: Matrix, row: seq<Cell>, cell: Cell, s: string, t: string, c: Costs, i: nat)
    requires i <= |s| && |M| == i && |row| <= |t| + 1
    requires i > 0 ==> |M[i - 1]| == |t| + 1
    requires forall q :: 0 <= q < |row| ==> CellRule(M + [row], s, t, c, i, q)
    ensures forall q :: 0 <= q < |row| ==> CellRule(M + [row + [cell]], s, t, c, i, q)
  {
    var M', M'' := M + [row], M + [row + [cell]];
    forall q | 0 <= q < |row|
      ensures CellRule(M'', s, t, c, i, q)
    {
      assert CellRule(M', s, t, c, i, q);
      assert M''[i][q] == M'[i][q];
      assert q > 0 ==> M''[i][q - 1] == M'[i][q - 1];
      assert i > 0 ==> M''[i - 1] == M'[i - 1];
    }
  }

  /** Appending a row keeps the rule of every cell in the rows above it. */
  lemma MatrixFrame(M: Matrix, row: seq<Cell>, s: string, t: string, c: Costs)
    requires |M| <= |s| + 1 && forall r :: 0 <= r < |M| ==> |M[r]| == |t| + 1
    requires forall r, q :: 0 <= r < |M| && 0 <= q <= |t| ==> CellRule(M, s, t, c, r, q)
    ensures forall r, q :: 0 <= r < |M| && 0 <= q <= |t| ==> CellRule(M + [row], s, t, c, r, q)
  {
    var M' := M + [row];
    forall r, q | 0 <= r < |M| && 0 <= q <= |t|
      ensures CellRule(M', s, t, c, r, q)
    {
      assert CellRule(M, s, t, c, r, q);
      assert M'[r] == M[r];
      assert r > 0 ==> M'[r - 1] == M[r - 1];
    }
  }

  /** Fills the matrix row by row, keeping every neighbour that ties for the minimum. */
  method BuildMatrix(s: string, t: string, c: Costs) returns (M: Matrix)
    ensures Built(M, s, t, c)
  {
    var n, m := |s|, |t|;
    M := [];
    var i := 0;
    while i <= n
      invariant 0 <= i <= n + 1
      invariant |M| == i
      invariant forall r :: 0 <= r < i ==> |M[r]| == m + 1
      invariant forall r, q :: 0 <= r < i && 0 <= q <= m ==> CellRule(M, s, t, c, r, q)
    {
      var row: seq<Cell> := [];
      var j := 0;
      while j <= m
        invariant 0 <= j <= m + 1
        invariant |row| == j
        invariant forall q :: 0 <= q < j ==> CellRule(M + [row], s, t, c, i, q)
      {
        var cell := NextCell(M, row, s, t, c, i, j);
        RowFrame(M, row, cell, s, t, c, i);
        row := row + [cell];
        j := j + 1;
      }
      MatrixFrame(M, row, s, t, c);
      M := M + [row];
      i := i + 1;
    }
  }

  /** The reference distance of two prefixes, unfolded one step. */
  lemma DistanceUnfold(s: string, t: string, c: Costs, i: nat, j: nat)
    requires i <= |s| && j <= |t|
    ensures i == 0 && j == 0 ==> Distance(s[..i], t[..j], c) == 0
    ensures i > 0 && j == 0 ==> Distance(s[..i], t[..j], c) == Distance(s[..i - 1], t[..j], c) + c.del(s[i - 1])
    ensures i == 0 && j > 0 ==> Distance(s[..i], t[..j], c) == Distance(s[..i], t[..j - 1], c) + c.ins(t[j - 1])
    ensures i > 0 && j > 0 ==> Distance(s[..i], t[..j], c) == Min3(
      Distance(s[..i - 1], t[..j], c) + c.del(s[i - 1]),
      Distance(s[..i], t[..j - 1], c) + c.ins(t[j - 1]),
      Distance(s[..i - 1], t[..j - 1], c) + c.sub(s[i - 1], t[j - 1]))
  {
    if i > 0 {
      assert s[..i][..i - 1] == s[..i - 1];
    }
    if j > 0 {
      assert t[..j][..j - 1] == t[..j - 1];
    }
  }

  /** An interior cell holds the reference distance once its three neighbours do. */
  lemma BuiltInterior(M: Matrix, s: string, t: string, c: Costs, i: nat, j: nat)
    requires Built(M, s, t, c)
    requires 0 < i <= |s| && 0 < j <= |t|
    requires M[i - 1][j].distance == Distance(s[..i - 1], t[..j], c)
    requires M[i][j - 1].distance == Distance(s[..i], t[..j - 1], c)
    requires M[i - 1][j - 1].distance == Distance(s[..i - 1], t[..j - 1], c)
    ensures M[i][j].distance == Distance(s[..i], t[..j], c)
  {
    assert CellRule(M, s, t, c, i, j);
    DistanceUnfold(s, t, c, i, j);
  }

  /** A border cell holds the reference distance once the cell before it does. */
  lemma BuiltBorder(M: Matrix, s: string, t: string, c: Costs, i: nat, j: nat)
    requires Built(M, s, t, c)
    requires i <= |s| && j <= |t| && (i == 0 || j == 0)
    requires i > 0 ==> M[i - 1][j].distance == Distance(s[..i - 1], t[..j], c)
    requires j > 0 ==> M[i][j - 1].distance == Distance(s[..i], t[..j - 1], c)
    ensures M[i][j].distance == Distance(s[..i], t[..j], c)
  {
    assert CellRule(M, s, t, c, i, j);
    DistanceUnfold(s, t, c, i, j);
  }

  /** Every cell of a built matrix holds the reference distance of the two prefixes it stands for. */
  lemma {:induction false} BuiltDistance(M: Matrix, s: string, t: string, c: Costs, i: nat, j: nat)
    requires Built(M, s, t, c)
    requires i <= |s| && j <= |t|
    ensures M[i][j].distance == Distance(s[..i], t[..j], c)
    decreases i + j
  {
    if i == 0 || j == 0 {
      if i > 0 {
        BuiltDistance(M, s, t, c, i - 1, j);
      }
      if j > 0 {
        BuiltDistance(M, s, t, c, i, j - 1);
      }
      BuiltBorder(M, s, t, c, i, j);
    } else {
      BuiltDistance(M, s, t, c, i - 1, j);
      BuiltDistance(M, s, t, c, i, j - 1);
      BuiltDistance(M, s, t, c, i - 1, j - 1);
      BuiltInterior(M, s, t, c, i, j);
    }
  }

  /** No single step into a cell undercuts the cell: its distance is at most the predecessor's plus the step's cost. */
  lemma DistanceStepBound(s: string, t: string, c: Costs, p: Address, a: Address)
    requires Neighbour(p, a) && a.0 <= |s| && a.1 <= |t|
    ensures Distance(s[..a.0], t[..a.1], c) <= Distance(s[..p.0], t[..p.1], c) + StepCost(s, t, c, p, a)
  {
    if a.0 > 0 {
      assert s[..a.0][..a.0 - 1] == s[..a.0 - 1];
    }
    if a.1 > 0 {
      assert t[..a.1][..a.1 - 1] == t[..a.1 - 1];
    }
  }

  /** The position of a neighbour in a predecessor list: up, then left, then diagonal. */
  function StepRank(p: Address, a: Address): nat {
    if Up(p, a) then 0 else if Left(p, a) then 1 else 2
  }

  /** The predecessors of an interior cell are the neighbours whose step is tight. */
  lemma InteriorPredecessors(M: Matrix, s: string, t: string, c: Costs, i: nat, j: nat)
    requires Built(M, s, t, c)
    requires 0 < i <= |s| && 0 < j <= |t|
    ensures M[i][j].previous != []
    ensures forall p: Address :: p in M[i][j].previous <==>
      (Neighbour(p, (i, j)) && M[p.0][p.1].distance + StepCost(s, t, c, p, (i, j)) == M[i][j].distance)
    ensures forall k, l :: 0 <= k < l < |M[i][j].previous| ==>
      StepRank(M[i][j].previous[k], (i, j)) < StepRank(M[i][j].previous[l], (i, j))
  {
    assert CellRule(M, s, t, c, i, j);
    var a: Address := (i, j);
    var viaDel := M[i - 1][j].distance + c.del(s[i - 1]);
    var viaIns := M[i][j - 1].distance + c.ins(t[j - 1]);
    var viaSub := M[i - 1][j - 1].distance + c.sub(s[i - 1], t[j - 1]);
    InteriorPrevious(i, j, viaDel, viaIns, viaSub);
    var prev := M[i][j].previous;
    forall p: Address
      ensures p in prev <==> (Neighbour(p, a) && M[p.0][p.1].distance + StepCost(s, t, c, p, a) == M[i][j].distance)
    {
      if Up(p, a) {
        assert p == (i - 1, j);
      } else if Left(p, a) {
        assert p == (i, j - 1);
      } else if Diag(p, a) {
        assert p == (i - 1, j - 1);
      }
    }
  }

  /** A border cell other than the origin has its one neighbour as its only predecessor. */
  lemma BorderPredecessors(M: Matrix, s: string, t: string, c: Costs, i: nat, j: nat)
    requires Built(M, s, t, c)
    requires i <= |s| && j <= |t| && (i == 0 || j == 0)
    ensures (i, j) == (0, 0) <==> M[i][j].previous == []
    ensures forall p: Address :: p in M[i][j].previous <==>
      (Neighbour(p, (i, j)) && M[p.0][p.1].distance + StepCost(s, t, c, p, (i, j)) == M[i][j].distance)
    ensures |M[i][j].previous| <= 1
  {
    assert CellRule(M, s, t, c, i, j);
  }

  /**
    The predecessors of every cell but (0, 0) are exactly the neighbours whose
    step reaches the cell's distance, listed without repetition in the order
    up, left, diagonal; (0, 0) has none.
   */
  lemma PredecessorsExact(M: Matrix, s: string, t: string, c: Costs, a: Address)
    requires Built(M, s, t, c)
    requires a.0 <= |s| && a.1 <= |t|
    ensures a == (0, 0) <==> M[a.0][a.1].previous == []
    ensures forall p: Address :: p in M[a.0][a.1].previous <==>
      (Neighbour(p, a) && M[p.0][p.1].distance + StepCost(s, t, c, p, a) == M[a.0][a.1].distance)
    ensures forall k, l :: 0 <= k < l < |M[a.0][a.1].previous| ==>
      StepRank(M[a.0][a.1].previous[k], a) < StepRank(M[a.0][a.1].previous[l], a)
  {
    if a.0 > 0 && a.1 > 0 {
      InteriorPredecessors(M, s, t, c, a.0, a.1);
    } else {
      BorderPredecessors(M, s, t, c, a.0, a.1);
    }
  }

  /** The tie list of an interior cell: the candidates equal to the minimum, in the order up, left, diagonal. */
  lemma InteriorPrevious(i: nat, j: nat, viaDel: int, viaIns: int, viaSub: int)
    requires i >= 1 && j >= 1
    ensures var cell := Interior(i, j, viaDel, viaIns, viaSub);
      && cell.previous != []
      && (forall p: Address :: p in cell.previous <==>
            (p == (i - 1, j) && viaDel == cell.distance)
            || (p == (i, j - 1) && viaIns == cell.distance)
            || (p == (i - 1, j - 1) && viaSub == cell.distance))
      && (forall k, l :: 0 <= k < l < |cell.previous| ==>
            StepRank(cell.previous[k], (i, j)) < StepRank(cell.previous[l], (i, j)))
  {
  }

  /** Under non-negative costs every distance is non-negative. */
  lemma {:induction false} DistanceNonNegative(s: string, t: string, c: Costs)
    requires NonNegative(c)
    ensures Distance(s, t, c) >= 0
    decreases |s| + |t|
  {
    if |s| > 0 {
      DistanceNonNegative(s[..|s| - 1], t, c);
    }
    if |t| > 0 {
      DistanceNonNegative(s, t[..|t| - 1], c);
    }
    if |s| > 0 && |t| > 0 {
      DistanceNonNegative(s[..|s| - 1], t[..|t| - 1], c);
    }
  }

  /** With the default costs, turning a string into the empty string costs one per character. */
  lemma {:induction false} DistanceToEmpty(s: string)
    ensures Distance(s, "", Defaults) == |s|
    decreases |s|
  {
    if |s| > 0 {
      DistanceToEmpty(s[..|s| - 1]);
    }
  }

  /** With the default costs, building a string from nothing costs one per character. */
  lemma {:induction false} DistanceFromEmpty(t: string)
    ensures Distance("", t, Defaults) == |t|
    decreases |t|
  {
    if |t| > 0 {
      DistanceFromEmpty(t[..|t| - 1]);
    }
  }

  /** With the default costs a string is at distance zero from itself. */
  lemma {:induction false} DistanceToSelf(s: string)
    ensures Distance(s, s, Defaults) == 0
    decreases |s|
  {
    DistanceNonNegative(s, s, Defaults);
    if |s| > 0 {
      DistanceToSelf(s[..|s| - 1]);
    }
  }

  /** The default costs are symmetric, so the distance does not depend on the direction. */
  lemma {:induction false} DistanceSymmetric(a: string, b: string)
    ensures Distance(a, b, Defaults) == Distance(b, a, Defaults)
    decreases |a| + |b|
  {
    if |a| > 0 {
      DistanceSymmetric(a[..|a| - 1], b);
    }
    if |b| > 0 {
      DistanceSymmetric(a, b[..|b| - 1]);
    }
    if |a| > 0 && |b| > 0 {
      DistanceSymmetric(a[..|a| - 1], b[..|b| - 1]);
    }
  }
}
