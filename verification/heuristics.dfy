/** The improved heuristic of LAB_03's `GraphNode` (lines 149-291 of
    PuzzleGraph.cpp): the Manhattan distance plus twice the linear
    conflicts, and on a 4-board three extra penalties.  Unlike the
    Manhattan distance, these parts send tile `v` to row `(v-1)/k` and
    column `(v-1)%k` with no special case. */
module Heuristics {
  import opened Board
  import opened GraphNode

  function TargetRow(v: int, k: int): int
    requires k > 0
  {
    CDiv(v - 1, k)
  }

  function TargetCol(v: int, k: int): int
    requires k > 0
  {
    CMod(v - 1, k)
  }

  /** The numbered cells of the goal are their tiles' targets here too. */
  lemma GoalTargets(k: int, i: int, j: int)
    requires 0 <= i < k && 0 <= j < k
    ensures TargetRow(i * k + j + 1, k) == i && TargetCol(i * k + j + 1, k) == j
  {
    DivModUnique(i * k + j, k, i, j);
  }

  /** The tiles of row `i`, among its first `j` cells, whose goal row is
      `i` (lines 240-249). */
  function RowLine(b: Grid, k: int, i: int, j: int): (r: seq<int>)
    requires Square(b, k) && 0 <= i < k && 0 <= j <= k
  {
    if j == 0 then []
    else
      var v := b[i][j - 1];
      RowLine(b, k, i, j - 1) + (if v != 0 && TargetRow(v, k) == i then [v] else [])
  }

  /** The tiles of column `j`, among its first `i` cells, whose goal
      column is `j` (lines 253-262). */
  function ColLine(b: Grid, k: int, j: int, i: int): (r: seq<int>)
    requires Square(b, k) && 0 <= j < k && 0 <= i <= k
  {
    if i == 0 then []
    else
      var v := b[i - 1][j];
      ColLine(b, k, j, i - 1) + (if v != 0 && TargetCol(v, k) == j then [v] else [])
  }

  /** Where the tiles of a line belong along it: their goal column in a
      row, their goal row in a column (lines 275-281). */
  function Positions(line: seq<int>, k: int, isRow: bool): (r: seq<int>)
    requires k > 0
    ensures |r| == |line|
  {
    seq(|line|, t requires 0 <= t < |line| => if isRow then TargetCol(line[t], k) else TargetRow(line[t], k))
  }

  /** Appending a tile to a line appends its position. */
  lemma PositionsAppend(line: seq<int>, v: int, k: int, isRow: bool)
    requires k > 0
    ensures Positions(line + [v], k, isRow)
         == Positions(line, k, isRow) + [if isRow then TargetCol(v, k) else TargetRow(v, k)]
  {
    var line' := line + [v];
    assert forall t | 0 <= t < |line| :: line'[t] == line[t];
  }

  /** A sorted list stays sorted when an entry above all of it is appended. */
  lemma SortedAppend(p: seq<int>, x: int)
    requires Sorted(p) && forall t | 0 <= t < |p| :: p[t] < x
    ensures Sorted(p + [x]) && forall t | 0 <= t < |p| + 1 :: (p + [x])[t] <= x
  {
  }

  /** `countConflictsInLine` (lines 270-291): the pairs of a line in the
      wrong order along it, i.e. the inversions of their positions. */
  method CountConflictsInLine(line: seq<int>, k: int, isRow: bool) returns (conflicts: int)
    requires k > 0
    ensures conflicts == Inversions(Positions(line, k, isRow))
  {
    conflicts := CountInversions(Positions(line, k, isRow));
  }

  /** The conflicts of the first `i` rows. */
  function RowsConflicts(b: Grid, k: int, i: int): nat
    requires Square(b, k) && 0 <= i <= k
  {
    if i == 0 then 0 else RowsConflicts(b, k, i - 1) + Inversions(Positions(RowLine(b, k, i - 1, k), k, true))
  }

  /** The conflicts of the first `j` columns. */
  function ColsConflicts(b: Grid, k: int, j: int): nat
    requires Square(b, k) && 0 <= j <= k
  {
    if j == 0 then 0 else ColsConflicts(b, k, j - 1) + Inversions(Positions(ColLine(b, k, j - 1, k), k, false))
  }

  function LinearConflicts(b: Grid, k: int): nat
    requires Square(b, k)
  {
    RowsConflicts(b, k, k) + ColsConflicts(b, k, k)
  }

  method CollectRow(b: Grid, k: int, i: int) returns (row: seq<int>)
    requires Square(b, k) && 0 <= i < k
    ensures row == RowLine(b, k, i, k)
  {
    row := [];
    var j := 0;
    while j < k
      invariant 0 <= j <= k && row == RowLine(b, k, i, j)
    {
      if b[i][j] != 0 {
        var targetRow := CDiv(b[i][j] - 1, k);
        if targetRow == i {
          row := row + [b[i][j]];
        }
      }
      j := j + 1;
    }
  }

  method CollectCol(b: Grid, k: int, j: int) returns (col: seq<int>)
    requires Square(b, k) && 0 <= j < k
    ensures col == ColLine(b, k, j, k)
  {
    col := [];
    var i := 0;
    while i < k
      invariant 0 <= i <= k && col == ColLine(b, k, j, i)
    {
      if b[i][j] != 0 {
        var targetCol := CMod(b[i][j] - 1, k);
        if targetCol == j {
          col := col + [b[i][j]];
        }
      }
      i := i + 1;
    }
  }

  /** The row half of `calculateLinearConflicts()` (lines 239-250). */
  method RowConflicts(b: Grid, k: int) returns (conflicts: int)
    requires Square(b, k)
    ensures conflicts == RowsConflicts(b, k, k)
  {
    conflicts := 0;
    var i := 0;
    while i < k
      invariant 0 <= i <= k && conflicts == RowsConflicts(b, k, i)
    {
      var row := CollectRow(b, k, i);
      var c := CountConflictsInLine(row, k, true);
      conflicts := conflicts + c;
      i := i + 1;
    }
  }

  /** The column half (lines 252-265). */
  method ColConflicts(b: Grid, k: int) returns (conflicts: int)
    requires Square(b, k)
    ensures conflicts == ColsConflicts(b, k, k)
  {
    conflicts := 0;
    var j := 0;
    while j < k
      invariant 0 <= j <= k && conflicts == ColsConflicts(b, k, j)
    {
      var col := CollectCol(b, k, j);
      var c := CountConflictsInLine(col, k, false);
      conflicts := conflicts + c;
      j := j + 1;
    }
  }

  /** `calculateLinearConflicts()` (lines 236-268). */
  method CalculateLinearConflicts(b: Grid, k: int) returns (conflicts: int)
    requires Square(b, k)
    ensures conflicts == LinearConflicts(b, k)
  {
    var rows := RowConflicts(b, k);
    var cols := ColConflicts(b, k);
    conflicts := rows + cols;
  }

  /** When every tile collected from a row sits in its goal column, the
      collected tiles come in increasing goal column, all before `j`. */
  lemma {:induction false} RowLineOrdered(b: Grid, k: int, i: int, j: int)
    requires Square(b, k) && 0 <= i < k && 0 <= j <= k
    requires forall c | 0 <= c < j && b[i][c] != 0 && TargetRow(b[i][c], k) == i :: TargetCol(b[i][c], k) == c
    ensures var p := Positions(RowLine(b, k, i, j), k, true);
      Sorted(p) && forall t | 0 <= t < |p| :: p[t] < j
    decreases j
  {
    if j > 0 {
      RowLineOrdered(b, k, i, j - 1);
      var prev := RowLine(b, k, i, j - 1);
      var v := b[i][j - 1];
      if v != 0 && TargetRow(v, k) == i {
        assert TargetCol(v, k) == j - 1;
        assert RowLine(b, k, i, j) == prev + [v];
        PositionsAppend(prev, v, k, true);
        SortedAppend(Positions(prev, k, true), j - 1);
      } else {
        assert RowLine(b, k, i, j) == prev;
      }
    }
  }

  /** The same for a column and goal rows. */
  lemma {:induction false} ColLineOrdered(b: Grid, k: int, j: int, i: int)
    requires Square(b, k) && 0 <= j < k && 0 <= i <= k
    requires forall r | 0 <= r < i && b[r][j] != 0 && TargetCol(b[r][j], k) == j :: TargetRow(b[r][j], k) == r
    ensures var p := Positions(ColLine(b, k, j, i), k, false);
      Sorted(p) && forall t | 0 <= t < |p| :: p[t] < i
    decreases i
  {
    if i > 0 {
      ColLineOrdered(b, k, j, i - 1);
      var prev := ColLine(b, k, j, i - 1);
      var v := b[i - 1][j];
      if v != 0 && TargetCol(v, k) == j {
        assert TargetRow(v, k) == i - 1;
        assert ColLine(b, k, j, i) == prev + [v];
        PositionsAppend(prev, v, k, false);
        SortedAppend(Positions(prev, k, false), i - 1);
      } else {
        assert ColLine(b, k, j, i) == prev;
      }
    }
  }

  /** Every tile of `b` sits in its goal row and column. */
  predicate AtTargets(b: Grid, k: int)
    requires Square(b, k)
  {
    forall i, j | 0 <= i < k && 0 <= j < k && b[i][j] != 0 :: TargetRow(b[i][j], k) == i && TargetCol(b[i][j], k) == j
  }

  lemma RowLineNoConflicts(b: Grid, k: int, i: int)
    requires Square(b, k) && AtTargets(b, k) && 0 <= i < k
    ensures Inversions(Positions(RowLine(b, k, i, k), k, true)) == 0
  {
    RowLineOrdered(b, k, i, k);
    InversionsZero(Positions(RowLine(b, k, i, k), k, true));
  }

  lemma ColLineNoConflicts(b: Grid, k: int, j: int)
    requires Square(b, k) && AtTargets(b, k) && 0 <= j < k
    ensures Inversions(Positions(ColLine(b, k, j, k), k, false)) == 0
  {
    ColLineOrdered(b, k, j, k);
    InversionsZero(Positions(ColLine(b, k, j, k), k, false));
  }

  lemma {:induction false} RowsNoConflicts(b: Grid, k: int, i: int)
    requires Square(b, k) && AtTargets(b, k) && 0 <= i <= k
    ensures RowsConflicts(b, k, i) == 0
    decreases i
  {
    if i > 0 {
      RowsNoConflicts(b, k, i - 1);
      RowLineNoConflicts(b, k, i - 1);
      var p := Positions(RowLine(b, k, i - 1, k), k, true);
      assert Inversions(p) == 0;
      assert RowsConflicts(b, k, i) == RowsConflicts(b, k, i - 1) + Inversions(p);
    }
  }

  lemma {:induction false} ColsNoConflicts(b: Grid, k: int, j: int)
    requires Square(b, k) && AtTargets(b, k) && 0 <= j <= k
    ensures ColsConflicts(b, k, j) == 0
    decreases j
  {
    if j > 0 {
      ColsNoConflicts(b, k, j - 1);
      ColLineNoConflicts(b, k, j - 1);
      var p := Positions(ColLine(b, k, j - 1, k), k, false);
      assert Inversions(p) == 0;
      assert ColsConflicts(b, k, j) == ColsConflicts(b, k, j - 1) + Inversions(p);
    }
  }

  /** The goal board has every tile at its goal row and column. */
  lemma GoalAtTargets(k: nat)
    ensures AtTargets(Goal(k), k)
  {
    forall i, j | 0 <= i < k && 0 <= j < k && Goal(k)[i][j] != 0
      ensures TargetRow(Goal(k)[i][j], k) == i && TargetCol(Goal(k)[i][j], k) == j
    {
      GoalTargets(k, i, j);
    }
  }

  /** A board with every tile at its goal row and column, the goal board
      among them, has no linear conflicts. */
  lemma NoConflictsAtTargets(b: Grid, k: int)
    requires Square(b, k) && AtTargets(b, k)
    ensures LinearConflicts(b, k) == 0
  {
    RowsNoConflicts(b, k, k);
    ColsNoConflicts(b, k, k);
  }

  lemma GoalNoConflicts(k: nat)
    ensures LinearConflicts(Goal(k), k) == 0
  {
    GoalAtTargets(k);
    NoConflictsAtTargets(Goal(k), k);
  }

  /** The Manhattan distance of tile `v` at `(i, j)` from its goal cell, as
      the penalties compute it. */
  function Dist(v: int, i: int, j: int, k: int): nat
    requires k > 0
  {
    Abs(i - TargetRow(v, k)) + Abs(j - TargetCol(v, k))
  }

  /** Lines 176-183: a corner tile more than two steps from its goal cell
      costs 2. */
  function CornerCost(b: Grid, i: int, j: int): nat
    requires Square(b, 4) && 0 <= i < 4 && 0 <= j < 4
  {
    var v := b[i][j];
    if v != 0 && Dist(v, i, j, 4) > 2 then 2 else 0
  }

  /** `calculateCornerPenalty()` (lines 168-187), over the four corners. */
  function CornerPenalty(b: Grid): nat
    requires Square(b, 4)
  {
    CornerCost(b, 0, 0) + CornerCost(b, 0, 3) + CornerCost(b, 3, 0) + CornerCost(b, 3, 3)
  }

  predicate OnBorder(i: int, j: int, k: int)
  {
    i == 0 || i == k - 1 || j == 0 || j == k - 1
  }

  /** Lines 196-206: a tile costs 1 when exactly one of its cell and its
      goal cell lies on the border. */
  function EdgeCost(v: int, i: int, j: int): nat
  {
    if v != 0 && OnBorder(i, j, 4) != OnBorder(TargetRow(v, 4), TargetCol(v, 4), 4) then 1 else 0
  }

  /** Lines 221-230: a tile more than three steps away costs a quarter of
      its distance, rounded down. */
  function WalkCost(v: int, i: int, j: int): nat
  {
    if v != 0 && Dist(v, i, j, 4) > 3 then Dist(v, i, j, 4) / 4 else 0
  }

  /** `f` summed over the first `j` cells of row `i`. */
  function RowSum(b: Grid, k: int, f: (int, int, int) -> nat, i: int, j: int): nat
    requires Square(b, k) && 0 <= i < k && 0 <= j <= k
  {
    if j == 0 then 0 else RowSum(b, k, f, i, j - 1) + f(b[i][j - 1], i, j - 1)
  }

  /** `f` summed over the first `i` rows. */
  function GridSum(b: Grid, k: int, f: (int, int, int) -> nat, i: int): nat
    requires Square(b, k) && 0 <= i <= k
  {
    if i == 0 then 0 else GridSum(b, k, f, i - 1) + RowSum(b, k, f, i - 1, k)
  }

  lemma {:induction false} RowSumZero(b: Grid, k: int, f: (int, int, int) -> nat, i: int, j: int)
    requires Square(b, k) && 0 <= i < k && 0 <= j <= k
    requires forall c | 0 <= c < k :: f(b[i][c], i, c) == 0
    ensures RowSum(b, k, f, i, j) == 0
    decreases j
  {
    if j > 0 {
      RowSumZero(b, k, f, i, j - 1);
    }
  }

  lemma {:induction false} GridSumZero(b: Grid, k: int, f: (int, int, int) -> nat, i: int)
    requires Square(b, k) && 0 <= i <= k
    requires forall r, c | 0 <= r < k && 0 <= c < k :: f(b[r][c], r, c) == 0
    ensures GridSum(b, k, f, i) == 0
    decreases i
  {
    if i > 0 {
      GridSumZero(b, k, f, i - 1);
      RowSumZero(b, k, f, i - 1, k);
    }
  }

  /** `calculateEdgePenalty()` (lines 190-212). */
  function EdgePenalty(b: Grid): nat
    requires Square(b, 4)
  {
    GridSum(b, 4, EdgeCost, 4)
  }

  /** `calculateWalkingDistance()` (lines 215-234). */
  function WalkingDistance(b: Grid): nat
    requires Square(b, 4)
  {
    GridSum(b, 4, WalkCost, 4)
  }

  /** `calculateAdvancedHeuristic()` (lines 149-165): the penalties count
      only on a 4-board. */
  function AdvancedHeuristic(b: Grid, k: int): (h: nat)
    requires Square(b, k)
    ensures h >= Manhattan(b, k) + 2 * LinearConflicts(b, k)
    ensures k != 4 ==> h == Manhattan(b, k) + 2 * LinearConflicts(b, k)
  {
    Manhattan(b, k) + 2 * LinearConflicts(b, k) + (if k == 4 then CornerPenalty(b) + EdgePenalty(b) + WalkingDistance(b) else 0)
  }

  /** On a 4-board with every tile at its goal cell all three penalties
      vanish. */
  lemma PenaltiesAtTargets(b: Grid)
    requires Square(b, 4) && AtTargets(b, 4)
    ensures CornerPenalty(b) == 0 && EdgePenalty(b) == 0 && WalkingDistance(b) == 0
  {
    forall r, c | 0 <= r < 4 && 0 <= c < 4
      ensures EdgeCost(b[r][c], r, c) == 0 && WalkCost(b[r][c], r, c) == 0 && CornerCost(b, r, c) == 0
    {
      if b[r][c] != 0 {
        assert Dist(b[r][c], r, c, 4) == 0;
      }
    }
    GridSumZero(b, 4, EdgeCost, 4);
    GridSumZero(b, 4, WalkCost, 4);
  }

  /** A board at distance 0 with every tile at its goal cell has
      heuristic 0. */
  lemma AdvancedAtTargets(b: Grid, k: int)
    requires Square(b, k) && AtTargets(b, k) && Manhattan(b, k) == 0
    ensures AdvancedHeuristic(b, k) == 0
  {
    NoConflictsAtTargets(b, k);
    if k == 4 {
      PenaltiesAtTargets(b);
    }
  }

  /** The heuristic is 0 on the goal board. */
  lemma AdvancedGoal(k: nat)
    ensures AdvancedHeuristic(Goal(k), k) == 0
  {
    ManhattanGoal(k);
    GoalAtTargets(k);
    AdvancedAtTargets(Goal(k), k);
  }

  /** `calculateAdvancedHeuristic()` as the code computes it. */
  method CalculateAdvancedHeuristic(b: Grid, k: int) returns (h: int)
    requires Square(b, k)
    ensures h == AdvancedHeuristic(b, k)
  {
    var manhattan := CalculateManhattanDistance(b, k);
    var linearConflicts := CalculateLinearConflicts(b, k);
    var penalty := 0;
    if k == 4 {
      penalty := penalty + CornerPenalty(b);
      penalty := penalty + EdgePenalty(b);
      penalty := penalty + WalkingDistance(b);
    }
    h := manhattan + 2 * linearConflicts + penalty;
  }
}
