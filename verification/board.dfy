/** The board logic that `GraphNode` and `Puzzle` (LAB_03) share: decoding a
    row-major list of 9 or 16 cells, the goal board, the blank's position,
    the Manhattan distance, and sliding the blank.  Both classes carry
    identical copies of this code, so it is defined once here. */
module Board {
  import opened Outcome

  type Grid = seq<seq<int>>

  /** `b` has `k` rows of `k` cells. */
  predicate Square(b: Grid, k: int)
  {
    |b| == k && forall i | 0 <= i < k :: |b[i]| == k
  }

  /** The cells of a board in row-major order. */
  function Flatten(b: Grid): seq<int>
  {
    if |b| == 0 then [] else Flatten(b[..|b| - 1]) + b[|b| - 1]
  }

  /** Adding a row appends its cells. */
  lemma FlattenSnoc(b: Grid, i: int)
    requires 0 <= i < |b|
    ensures Flatten(b[..i + 1]) == Flatten(b[..i]) + b[i]
  {
    assert b[..i + 1][..i] == b[..i];
  }

  lemma {:induction false} FlattenLength(b: Grid, k: int)
    requires forall i | 0 <= i < |b| :: |b[i]| == k
    ensures |Flatten(b)| == |b| * k
    decreases |b|
  {
    if |b| > 0 {
      FlattenLength(b[..|b| - 1], k);
    }
  }

  /** Boards with the same cells in the same order are the same board,
      whatever their sides. */
  lemma FlattenInjective(b: Grid, k: nat, c: Grid, m: nat)
    requires Square(b, k) && Square(c, m) && Flatten(b) == Flatten(c)
    ensures b == c
  {
    FlattenLength(b, k);
    FlattenLength(c, m);
    SquaresDiffer(k, m);
    FlattenSameShape(b, c, k);
  }

  lemma SquaresDiffer(k: nat, m: nat)
    ensures k * k == m * m ==> k == m
  {
    if k < m {
      assert k * k < m * m by {
        assert k * k <= k * m;
      }
    } else if m < k {
      assert m * m < k * k by {
        assert m * m <= m * k;
      }
    }
  }

  lemma {:induction false} FlattenSameShape(b: Grid, c: Grid, k: int)
    requires |b| == |c| && Flatten(b) == Flatten(c)
    requires forall i | 0 <= i < |b| :: |b[i]| == k && |c[i]| == k
    ensures b == c
    decreases |b|
  {
    if |b| > 0 {
      var n := |b| - 1;
      var fb, fc := Flatten(b[..n]), Flatten(c[..n]);
      FlattenLength(b[..n], k);
      FlattenLength(c[..n], k);
      assert fb + b[n] == fc + c[n];
      assert |fb| == |fc|;
      assert fb == (fb + b[n])[..|fb|] && fc == (fc + c[n])[..|fc|];
      assert b[n] == (fb + b[n])[|fb|..] && c[n] == (fc + c[n])[|fc|..];
      FlattenSameShape(b[..n], c[..n], k);
      assert b == b[..n] + [b[n]] && c == c[..n] + [c[n]];
    }
  }

  lemma Flatten3(b: Grid)
    requires |b| == 3
    ensures Flatten(b) == b[0] + b[1] + b[2]
  {
    assert b[..2][..1] == b[..1] && b[..1][..0] == [];
    assert Flatten(b[..1]) == b[0];
    assert Flatten(b[..2]) == b[0] + b[1];
  }

  lemma Flatten4(b: Grid)
    requires |b| == 4
    ensures Flatten(b) == b[0] + b[1] + b[2] + b[3]
  {
    assert b[..3][..2] == b[..2] && b[..2][..1] == b[..1] && b[..1][..0] == [];
    assert Flatten(b[..1]) == b[0];
    assert Flatten(b[..2]) == b[0] + b[1];
    assert Flatten(b[..3]) == b[0] + b[1] + b[2];
  }

  /** The constructors from a list (lines 11-31 of PuzzleGraph.cpp and
      14-34 of Puzzle.cpp): 9 cells make a 3-board and 16 a 4-board, filled
      row by row (`state[i][j] = input[i * size + j]`); any other length is
      rejected. */
  function Decode(input: seq<int>): (r: Result<Grid>)
    ensures r.Ok? <==> |input| == 9 || |input| == 16
    ensures r.Ok? ==> Square(r.value, if |input| == 9 then 3 else 4) && Flatten(r.value) == input
    ensures |input| == 9 ==> forall i, j | 0 <= i < 3 && 0 <= j < 3 :: r.value[i][j] == input[3 * i + j]
    ensures |input| == 16 ==> forall i, j | 0 <= i < 4 && 0 <= j < 4 :: r.value[i][j] == input[4 * i + j]
  {
    if |input| == 9 then
      var b := [input[0..3], input[3..6], input[6..9]];
      Flatten3(b);
      assert b[0] + b[1] + b[2] == input;
      Ok(b)
    else if |input| == 16 then
      var b := [input[0..4], input[4..8], input[8..12], input[12..16]];
      Flatten4(b);
      assert b[0] + b[1] + b[2] + b[3] == input;
      Ok(b)
    else
      Invalid("Entrada inválida: deve ter 9 ou 16 elementos")
  }

  /** Decoding the cells of a 3- or 4-board gives the board back. */
  lemma FlattenDecode(b: Grid, k: int)
    requires Square(b, k) && (k == 3 || k == 4)
    ensures Decode(Flatten(b)) == Ok(b)
  {
    if k == 3 {
      Flatten3(b);
      var s := Flatten(b);
      assert |s| == 9;
      assert s[0..3] == b[0] && s[3..6] == b[1] && s[6..9] == b[2];
      assert [s[0..3], s[3..6], s[6..9]] == b;
    } else {
      Flatten4(b);
      var s := Flatten(b);
      assert |s| == 16;
      assert s[0..4] == b[0] && s[4..8] == b[1] && s[8..12] == b[2] && s[12..16] == b[3];
      assert [s[0..4], s[4..8], s[8..12], s[12..16]] == b;
    }
  }

  /** The goal board: `1 .. k*k - 1` row by row, the blank (0) last. */
  function Goal(k: nat): (b: Grid)
    ensures Square(b, k)
  {
    seq(k, i => seq(k, j => if i == k - 1 && j == k - 1 then 0 else i * k + j + 1))
  }

  /** One row of `getGoalState()`: the counter runs on from `i * k + 1`,
      and the last row ends with the blank instead of a number. */
  method GoalRow(k: nat, i: nat, num0: int) returns (row: seq<int>, num: int)
    requires i < k && num0 == i * k + 1
    ensures row == Goal(k)[i]
    ensures num == if i == k - 1 then i * k + k else i * k + k + 1
  {
    row := [];
    num := num0;
    var j := 0;
    while j < k
      invariant 0 <= j <= k && row == Goal(k)[i][..j]
      invariant num == if i == k - 1 && j == k then i * k + j else i * k + j + 1
    {
      if i == k - 1 && j == k - 1 {
        row := row + [0];
      } else {
        row := row + [num];
        num := num + 1;
      }
      j := j + 1;
    }
  }

  /** `getGoalState()` (lines 62-77 of PuzzleGraph.cpp, 56-71 of
      Puzzle.cpp): a counter `num` numbers the cells row by row, skipping
      the last, which gets the blank. */
  method GetGoalState(k: nat) returns (goal: Grid)
    ensures goal == Goal(k)
  {
    goal := [];
    var num := 1;
    var i := 0;
    while i < k
      invariant 0 <= i <= k && goal == Goal(k)[..i] && (i < k ==> num == i * k + 1)
    {
      var row;
      row, num := GoalRow(k, i, num);
      assert goal + [row] == Goal(k)[..i + 1];
      goal := goal + [row];
      assert i * k + k + 1 == (i + 1) * k + 1;
      i := i + 1;
    }
    assert Goal(k)[..k] == Goal(k);
  }

  /** `isGoal()` (lines 79-82 of PuzzleGraph.cpp, 73-76 of Puzzle.cpp). */
  predicate IsGoal(b: Grid, k: nat)
  {
    b == Goal(k)
  }

  /** Cell `(i, j)` comes before cell `(r, c)` in row-major order. */
  predicate Before(i: int, j: int, r: int, c: int)
  {
    i < r || (i == r && j < c)
  }

  /** The first blank at or after cell `(i, j)` in row-major order. */
  function ZeroFrom(b: Grid, k: int, i: int, j: int): (r: Option<(int, int)>)
    requires Square(b, k) && 0 <= i <= k && 0 <= j <= k
    ensures r.Some? ==> var (y, x) := r.value;
      && 0 <= y < k && 0 <= x < k && b[y][x] == 0 && !Before(y, x, i, j)
      && forall p, q | 0 <= p < k && 0 <= q < k && !Before(p, q, i, j) && Before(p, q, y, x) :: b[p][q] != 0
    ensures r.None? ==> forall p, q | 0 <= p < k && 0 <= q < k && !Before(p, q, i, j) :: b[p][q] != 0
    decreases k - i, k - j
  {
    if i == k then None
    else if j == k then ZeroFrom(b, k, i + 1, 0)
    else if b[i][j] == 0 then Some((i, j))
    else ZeroFrom(b, k, i, j + 1)
  }

  /** `findEmptyPosition()` (lines 39-49 of PuzzleGraph.cpp, 44-54 of
      Puzzle.cpp): the first blank in row-major order; `None` when there is
      none, where the source leaves the position unassigned. */
  function EmptyPosition(b: Grid, k: int): (r: Option<(int, int)>)
    requires Square(b, k)
    ensures r.Some? ==> var (y, x) := r.value;
      && 0 <= y < k && 0 <= x < k && b[y][x] == 0
      && forall p, q | 0 <= p < k && 0 <= q < k && Before(p, q, y, x) :: b[p][q] != 0
    ensures r.None? ==> forall p, q | 0 <= p < k && 0 <= q < k :: b[p][q] != 0
  {
    ZeroFrom(b, k, 0, 0)
  }

  /** The board's only blank is at `(y, x)`. */
  predicate SingleBlank(b: Grid, k: int, y: int, x: int)
    requires Square(b, k)
  {
    0 <= y < k && 0 <= x < k && b[y][x] == 0 &&
    forall p, q | 0 <= p < k && 0 <= q < k && (p, q) != (y, x) :: b[p][q] != 0
  }

  lemma SingleBlankFound(b: Grid, k: int, y: int, x: int)
    requires Square(b, k) && SingleBlank(b, k, y, x)
    ensures EmptyPosition(b, k) == Some((y, x))
  {
    var r := EmptyPosition(b, k);
    assert r.Some?;
    assert r.value == (y, x);
  }

  /** C++ integer division, which truncates toward zero. */
  function CDiv(a: int, d: int): (q: int)
    requires d > 0
    ensures a >= 0 ==> q == a / d
  {
    if a >= 0 then a / d else -((-a) / d)
  }

  /** C++ `%`, whose sign follows the dividend. */
  function CMod(a: int, d: int): (r: int)
    requires d > 0
    ensures a == d * CDiv(a, d) + r
    ensures a >= 0 ==> r == a % d
  {
    a - d * CDiv(a, d)
  }

  /** Quotient and remainder are unique. */
  lemma DivModUnique(a: int, d: int, q: int, r: int)
    requires d > 0 && a == q * d + r && 0 <= r < d
    ensures a / d == q && a % d == r
  {
    var q', r' := a / d, a % d;
    assert a == q' * d + r' && 0 <= r' < d;
    assert (q' - q) * d == r - r' by {
      assert (q' - q) * d == q' * d - q * d;
    }
    if q' != q {
      var m := if q' > q then q' - q else q - q';
      assert m * d == Abs(r - r');
      MulAtLeast(m, d);
    }
  }

  lemma MulAtLeast(m: int, d: int)
    requires m >= 1 && d > 0
    ensures m * d >= d
  {
    assert m * d == (m - 1) * d + d;
  }

  function Abs(x: int): nat
  {
    if x < 0 then -x else x
  }

  /** Where the Manhattan distance sends tile `v` (lines 132-139 of
      PuzzleGraph.cpp, 84-91 of Puzzle.cpp): row `(v-1)/k` and column
      `(v-1)%k` in C++ arithmetic, except that the value `k*k` goes to the
      bottom-right cell. */
  function Target(v: int, k: int): (int, int)
    requires k > 0
  {
    if v == k * k then (k - 1, k - 1) else (CDiv(v - 1, k), CMod(v - 1, k))
  }

  /** The distance tile `v` at `(i, j)` contributes; the blank contributes
      nothing. */
  function TileCost(v: int, i: int, j: int, k: int): nat
    requires k > 0
  {
    if v == 0 then 0 else Abs(i - Target(v, k).0) + Abs(j - Target(v, k).1)
  }

  /** The contributions of the first `j` cells of row `i`. */
  function RowCost(b: Grid, k: int, i: int, j: int): nat
    requires Square(b, k) && 0 <= i < k && 0 <= j <= k
  {
    if j == 0 then 0 else RowCost(b, k, i, j - 1) + TileCost(b[i][j - 1], i, j - 1, k)
  }

  /** The contributions of the first `i` rows. */
  function RowsCost(b: Grid, k: int, i: int): nat
    requires Square(b, k) && 0 <= i <= k
  {
    if i == 0 then 0 else RowsCost(b, k, i - 1) + RowCost(b, k, i - 1, k)
  }

  /** The Manhattan distance: the sum over all cells, row by row. */
  function Manhattan(b: Grid, k: int): nat
    requires Square(b, k)
  {
    RowsCost(b, k, k)
  }

  /** `calculateManhattanDistance()` (lines 126-146 of PuzzleGraph.cpp,
      78-98 of Puzzle.cpp). */
  method CalculateManhattanDistance(b: Grid, k: int) returns (distance: int)
    requires Square(b, k)
    ensures distance == Manhattan(b, k)
  {
    distance := 0;
    var i := 0;
    while i < k
      invariant 0 <= i <= k && distance == RowsCost(b, k, i)
    {
      var j := 0;
      while j < k
        invariant 0 <= j <= k && distance == RowsCost(b, k, i) + RowCost(b, k, i, j)
      {
        if b[i][j] != 0 {
          var target := Target(b[i][j], k);
          distance := distance + Abs(i - target.0) + Abs(j - target.1);
        }
        j := j + 1;
      }
      i := i + 1;
    }
  }

  /** Every tile of the board is the blank or sits where `Target` sends it. */
  predicate Placed(b: Grid, k: int)
    requires Square(b, k)
  {
    forall i, j | 0 <= i < k && 0 <= j < k :: b[i][j] == 0 || Target(b[i][j], k) == (i, j)
  }

  lemma {:induction false} RowCostZero(b: Grid, k: int, i: int, j: int)
    requires Square(b, k) && 0 <= i < k && 0 <= j <= k
    ensures RowCost(b, k, i, j) == 0 <==> forall c | 0 <= c < j :: b[i][c] == 0 || Target(b[i][c], k) == (i, c)
    decreases j
  {
    if j > 0 {
      RowCostZero(b, k, i, j - 1);
    }
  }

  lemma {:induction false} RowsCostZero(b: Grid, k: int, i: int)
    requires Square(b, k) && 0 <= i <= k
    ensures RowsCost(b, k, i) == 0 <==>
      forall r, c | 0 <= r < i && 0 <= c < k :: b[r][c] == 0 || Target(b[r][c], k) == (r, c)
    decreases i
  {
    if i > 0 {
      RowsCostZero(b, k, i - 1);
      RowCostZero(b, k, i - 1, k);
    }
  }

  /** The distance is zero exactly when every tile is in its target cell. */
  lemma ManhattanZero(b: Grid, k: int)
    requires Square(b, k)
    ensures Manhattan(b, k) == 0 <==> Placed(b, k)
  {
    RowsCostZero(b, k, k);
  }

  /** The numbered cells of the goal are their tiles' targets. */
  lemma GoalTarget(k: int, i: int, j: int)
    requires 0 <= i < k && 0 <= j < k && !(i == k - 1 && j == k - 1)
    ensures Target(i * k + j + 1, k) == (i, j)
  {
    DivModUnique(i * k + j, k, i, j);
    if i * k + j + 1 == k * k {
      DivModUnique(i * k + j, k, k - 1, k - 1);
    }
  }

  /** The goal board has Manhattan distance 0. */
  lemma ManhattanGoal(k: nat)
    ensures Manhattan(Goal(k), k) == 0
  {
    var g := Goal(k);
    forall i, j | 0 <= i < k && 0 <= j < k
      ensures g[i][j] == 0 || Target(g[i][j], k) == (i, j)
    {
      if !(i == k - 1 && j == k - 1) {
        GoalTarget(k, i, j);
      }
    }
    ManhattanZero(g, k);
  }

  /** The four ways to slide the blank, in the order the code tries them. */
  datatype Move = Up | Down | Left | Right

  /** The row and column offsets of a move (`{-1,0}, {1,0}, {0,-1}, {0,1}`). */
  function Delta(m: Move): (int, int)
  {
    match m
    case Up => (-1, 0)
    case Down => (1, 0)
    case Left => (0, -1)
    case Right => (0, 1)
  }

  /** The label a move is recorded under. */
  function Name(m: Move): (s: string)
    ensures s in ["UP", "DOWN", "LEFT", "RIGHT"]
  {
    match m
    case Up => "UP"
    case Down => "DOWN"
    case Left => "LEFT"
    case Right => "RIGHT"
  }

  /** The move that undoes `m`. */
  function Opposite(m: Move): (o: Move)
    ensures Delta(o).0 == -Delta(m).0 && Delta(o).1 == -Delta(m).1
  {
    match m
    case Up => Down
    case Down => Up
    case Left => Right
    case Right => Left
  }

  /** A move's place in the order UP, DOWN, LEFT, RIGHT. */
  function Rank(m: Move): nat
  {
    match m
    case Up => 0
    case Down => 1
    case Left => 2
    case Right => 3
  }

  /** The cell the blank at `e` moves to. */
  function Step(e: (int, int), m: Move): (int, int)
  {
    (e.0 + Delta(m).0, e.1 + Delta(m).1)
  }

  /** `isValidMove(newRow, newCol)` (lines 375-378 of PuzzleGraph.cpp,
      104-106 of Puzzle.cpp): the cell lies on the board. */
  predicate InBounds(k: int, p: (int, int))
  {
    0 <= p.0 < k && 0 <= p.1 < k
  }

  /** `swap(newState[er][ec], newState[nr][nc])`: the two cells exchange
      their values and every other cell keeps its own. */
  function Swap(b: Grid, k: int, p: (int, int), q: (int, int)): (r: Grid)
    requires Square(b, k) && InBounds(k, p) && InBounds(k, q)
    ensures Square(r, k)
    ensures r[p.0][p.1] == b[q.0][q.1] && r[q.0][q.1] == b[p.0][p.1]
    ensures forall i, j | 0 <= i < k && 0 <= j < k && (i, j) != p && (i, j) != q :: r[i][j] == b[i][j]
  {
    var t := b[p.0][p.1];
    var b1 := b[p.0 := b[p.0][p.1 := b[q.0][q.1]]];
    b1[q.0 := b1[q.0][q.1 := t]]
  }

  /** Swapping the same two cells again restores the board. */
  lemma SwapTwice(b: Grid, k: int, p: (int, int), q: (int, int))
    requires Square(b, k) && InBounds(k, p) && InBounds(k, q)
    ensures Swap(Swap(b, k, p, q), k, p, q) == b
  {
    var r := Swap(Swap(b, k, p, q), k, p, q);
    forall i | 0 <= i < k
      ensures r[i] == b[i]
    {
      forall j | 0 <= j < k
        ensures r[i][j] == b[i][j]
      {
      }
    }
  }

  /** The moves whose target cell lies on the board, in the order UP, DOWN,
      LEFT, RIGHT (the direction loops of lines 394-408 of PuzzleGraph.cpp
      and 125-135 of Puzzle.cpp); a blank on a board of side at least 2 has
      between two and four of them. */
  function Slides(k: int, e: (int, int)): (r: seq<Move>)
    ensures forall m :: m in r <==> InBounds(k, Step(e, m))
  {
    Keep(k, e, Up) + Keep(k, e, Down) + Keep(k, e, Left) + Keep(k, e, Right)
  }

  /** `[m]` when the move keeps the blank on the board, else nothing. */
  function Keep(k: int, e: (int, int), m: Move): (r: seq<Move>)
  {
    if InBounds(k, Step(e, m)) then [m] else []
  }

  /** The moves keep the order UP, DOWN, LEFT, RIGHT. */
  lemma SlidesOrdered(k: int, e: (int, int))
    ensures var r := Slides(k, e);
      forall a, c | 0 <= a < c < |r| :: Rank(r[a]) < Rank(r[c])
  {
  }

  /** A blank on a board of side at least 2 has between two and four moves. */
  lemma SlidesCount(k: int, e: (int, int))
    requires k >= 2 && InBounds(k, e)
    ensures 2 <= |Slides(k, e)| <= 4
  {
  }

  /** `makeMove` on the board: the blank at `e` changes place with the cell
      it slides into. */
  function MoveBlank(b: Grid, k: int, e: (int, int), m: Move): (r: Grid)
    requires Square(b, k) && InBounds(k, e) && InBounds(k, Step(e, m))
    ensures Square(r, k)
  {
    Swap(b, k, e, Step(e, m))
  }

  /** After a move the only blank is in the cell the blank slid into, so
      the blank lookup finds it there. */
  lemma MoveBlankBlank(b: Grid, k: int, e: (int, int), m: Move)
    requires Square(b, k) && InBounds(k, Step(e, m)) && SingleBlank(b, k, e.0, e.1)
    ensures var q := Step(e, m);
      SingleBlank(MoveBlank(b, k, e, m), k, q.0, q.1) && EmptyPosition(MoveBlank(b, k, e, m), k) == Some(q)
  {
    var q := Step(e, m);
    var r := MoveBlank(b, k, e, m);
    assert q != e by {
      assert Delta(m) != (0, 0);
    }
    assert SingleBlank(r, k, q.0, q.1);
    SingleBlankFound(r, k, q.0, q.1);
  }

  /** Swapping `p` with `q` is swapping `q` with `p`. */
  lemma SwapSymmetric(b: Grid, k: int, p: (int, int), q: (int, int))
    requires Square(b, k) && InBounds(k, p) && InBounds(k, q)
    ensures Swap(b, k, p, q) == Swap(b, k, q, p)
  {
    var r, r' := Swap(b, k, p, q), Swap(b, k, q, p);
    forall i | 0 <= i < k
      ensures r[i] == r'[i]
    {
      forall j | 0 <= j < k
        ensures r[i][j] == r'[i][j]
      {
      }
    }
  }

  /** The opposite move undoes a move. */
  lemma MoveBack(b: Grid, k: int, e: (int, int), m: Move)
    requires Square(b, k) && InBounds(k, e) && InBounds(k, Step(e, m))
    ensures Step(Step(e, m), Opposite(m)) == e
    ensures MoveBlank(MoveBlank(b, k, e, m), k, Step(e, m), Opposite(m)) == b
  {
    var q := Step(e, m);
    assert Step(q, Opposite(m)) == e;
    var r := Swap(b, k, e, q);
    assert MoveBlank(r, k, q, Opposite(m)) == Swap(r, k, q, e);
    SwapSymmetric(r, k, q, e);
    SwapTwice(b, k, e, q);
  }
}
