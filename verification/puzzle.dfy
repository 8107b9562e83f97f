/** LAB_03's `Puzzle`: a board together with the cost of the path that
    reached it (`gCost`), its Manhattan estimate (`hCost`) and the path
    itself, the move labels separated by single spaces. */
module Puzzles {
  import opened Outcome
  import opened Board

  datatype Puzzle = Puzzle(board: Grid, size: nat, empty: Option<(int, int)>, gCost: int, hCost: nat, path: string)

  /** What every constructor establishes: the blank found by
      `findEmptyPosition` and the estimate of `calculateHeuristic`. */
  predicate WellFormed(p: Puzzle)
  {
    && Square(p.board, p.size)
    && p.empty == EmptyPosition(p.board, p.size)
    && p.hCost == Manhattan(p.board, p.size)
  }

  /** The constructor from a board (lines 37-42), with `calculateHeuristic`
      (lines 100-102). */
  function FromBoard(board: Grid, g: int, path: string): (p: Puzzle)
    requires Square(board, |board|)
    ensures WellFormed(p) && p.board == board && p.size == |board|
    ensures p.gCost == g && p.path == path
  {
    Puzzle(board, |board|, EmptyPosition(board, |board|), g, Manhattan(board, |board|), path)
  }

  /** The constructor from a list (lines 14-34): as for a graph node, 9 or
      16 cells, else the same exception; the path starts empty at cost 0. */
  function FromInput(input: seq<int>): (r: Result<Puzzle>)
    ensures r.Ok? <==> |input| == 9 || |input| == 16
    ensures r.Ok? ==> (WellFormed(r.value) && r.value.size == (if |input| == 9 then 3 else 4) &&
                       Flatten(r.value.board) == input && r.value.gCost == 0 && r.value.path == "")
    ensures r.Invalid? ==> r.message == "Entrada inválida: deve ter 9 ou 16 elementos"
  {
    match Decode(input)
    case Ok(b) => Ok(FromBoard(b, 0, ""))
    case Invalid(msg) => Invalid(msg)
  }

  /** `isGoal` (lines 73-76). */
  predicate IsSolved(p: Puzzle)
  {
    IsGoal(p.board, p.size)
  }

  /** A solved puzzle has estimate 0. */
  lemma SolvedZero(p: Puzzle)
    requires WellFormed(p) && IsSolved(p)
    ensures p.hCost == 0
  {
    ManhattanGoal(p.size);
  }

  /** The path after one more move: a space only between labels. */
  function Extend(path: string, move: string): string
  {
    if path == "" then move else path + " " + move
  }

  /** `makeMove` (lines 108-119): the blank changes places with the cell
      the move leads to, the cost grows by one and the label is appended to
      the path. */
  function MakeMove(p: Puzzle, m: Move): (r: Puzzle)
    requires WellFormed(p) && p.empty.Some? && InBounds(p.size, Step(p.empty.value, m))
    ensures WellFormed(r) && r.size == p.size && r.gCost == p.gCost + 1
  {
    var b := MoveBlank(p.board, p.size, p.empty.value, m);
    FromBoard(b, p.gCost + 1, Extend(p.path, Name(m)))
  }

  /** `getNeighbors` (lines 121-138): one successor for each move UP, DOWN,
      LEFT, RIGHT that keeps the blank on the board, in that order. */
  function GetNeighbors(p: Puzzle): (r: seq<Puzzle>)
    requires WellFormed(p) && p.empty.Some?
    ensures var ms := Slides(p.size, p.empty.value);
      && |r| == |ms|
      && forall t | 0 <= t < |r| ::
           InBounds(p.size, Step(p.empty.value, ms[t])) && r[t] == MakeMove(p, ms[t])
  {
    var ms := Slides(p.size, p.empty.value);
    seq(|ms|, t requires 0 <= t < |ms| => MakeMove(p, ms[t]))
  }

  /** `operator==` (lines 162-164): only the boards are compared. */
  predicate Equal(a: Puzzle, b: Puzzle)
  {
    a.board == b.board
  }

  /** `getFCost()` (Puzzle.hpp line 29). */
  function FCost(p: Puzzle): int
  {
    p.gCost + p.hCost
  }

  /** `operator<` (lines 166-175), reversed for `priority_queue`: the
      larger total cost is less, ties broken by the larger estimate. */
  predicate Less(a: Puzzle, b: Puzzle)
  {
    if FCost(a) != FCost(b) then FCost(a) > FCost(b) else a.hCost > b.hCost
  }

  /** `Less` is a strict weak order whose ties are the puzzles with equal
      total cost and equal estimate, and a puzzle is never less than one of
      larger total cost, so a `priority_queue` yields the least total cost
      first. */
  lemma LessOrder(a: Puzzle, b: Puzzle, c: Puzzle)
    ensures !Less(a, a)
    ensures Less(a, b) ==> !Less(b, a)
    ensures Less(a, b) && Less(b, c) ==> Less(a, c)
    ensures !Less(a, b) && !Less(b, a) <==> FCost(a) == FCost(b) && a.hCost == b.hCost
    ensures Less(a, b) ==> FCost(a) >= FCost(b)
    ensures FCost(a) < FCost(b) ==> Less(b, a)
  {
  }

  /** The index of the last space in `s`, or -1. */
  function LastSpace(s: string): (i: int)
    ensures -1 <= i < |s|
    ensures i >= 0 ==> s[i] == ' '
    ensures forall j | i < j < |s| :: s[j] != ' '
  {
    if |s| == 0 then -1 else if s[|s| - 1] == ' ' then |s| - 1 else LastSpace(s[..|s| - 1])
  }

  /** The labels of a path, split at its spaces. */
  function Words(s: string): seq<string>
    decreases |s|
  {
    if |s| == 0 then []
    else
      var i := LastSpace(s);
      if i < 0 then [s] else Words(s[..i]) + [s[i + 1..]]
  }

  predicate Label(w: string)
  {
    |w| > 0 && ' ' !in w
  }

  /** Every move's label is one word. */
  lemma NameLabel(m: Move)
    ensures Label(Name(m))
  {
  }

  lemma NoSpaceLast(w: string)
    requires ' ' !in w
    ensures LastSpace(w) == -1
  {
    if |w| > 0 {
      assert w[|w| - 1] in w;
      assert forall c | c in w[..|w| - 1] :: c in w;
      NoSpaceLast(w[..|w| - 1]);
    }
  }

  /** The last space is the space after which no other comes. */
  lemma {:induction false} LastSpaceAt(s: string, i: int)
    requires 0 <= i < |s| && s[i] == ' ' && ' ' !in s[i + 1..]
    ensures LastSpace(s) == i
    decreases |s|
  {
    if i < |s| - 1 {
      var s' := s[..|s| - 1];
      assert s[|s| - 1] == s[i + 1..][|s| - 1 - (i + 1)];
      assert s'[i + 1..] == s[i + 1..][..|s| - 1 - (i + 1)];
      LastSpaceAt(s', i);
    }
  }

  lemma LastSpaceJoin(path: string, w: string)
    requires ' ' !in w
    ensures LastSpace(path + " " + w) == |path|
  {
    var s := path + " " + w;
    assert s[|path|] == ' ';
    assert s[|path| + 1..] == w;
    LastSpaceAt(s, |path|);
  }

  /** Appending a label to a path appends one word. */
  lemma WordsExtend(path: string, w: string)
    requires Label(w)
    ensures Words(Extend(path, w)) == Words(path) + [w]
  {
    if path == "" {
      NoSpaceLast(w);
    } else {
      var s := path + " " + w;
      LastSpaceJoin(path, w);
      assert s[..|path|] == path;
      assert s[|path| + 1..] == w;
    }
  }

  /** The path written for a list of labels, one at a time. */
  function Join(words: seq<string>): string
  {
    if |words| == 0 then "" else Extend(Join(words[..|words| - 1]), words[|words| - 1])
  }

  /** A path built by `makeMove` splits back into its labels. */
  lemma {:induction false} WordsJoin(words: seq<string>)
    requires forall t | 0 <= t < |words| :: Label(words[t])
    ensures Words(Join(words)) == words
    decreases |words|
  {
    if |words| > 0 {
      var init := words[..|words| - 1];
      WordsJoin(init);
      WordsExtend(Join(init), words[|words| - 1]);
    }
  }

  /** One move and its opposite: the path gains the move's label, the blank
      sits where it slid, and the opposite move gives back the board at
      cost two more. */
  lemma NeighborOf(p: Puzzle, m: Move)
    requires WellFormed(p) && p.empty.Some? && InBounds(p.size, Step(p.empty.value, m))
    requires SingleBlank(p.board, p.size, p.empty.value.0, p.empty.value.1)
    ensures var q := MakeMove(p, m);
      && Words(q.path) == Words(p.path) + [Name(m)]
      && q.empty == Some(Step(p.empty.value, m))
      && InBounds(p.size, Step(q.empty.value, Opposite(m)))
      && var back := MakeMove(q, Opposite(m));
         Equal(back, p) && back.gCost == p.gCost + 2
  {
    var e := p.empty.value;
    NameLabel(m);
    WordsExtend(p.path, Name(m));
    MoveBlankBlank(p.board, p.size, e, m);
    MoveBack(p.board, p.size, e, m);
  }

  /** Each neighbour is one move further, records the label of its move
      as the last word of its path, has its blank where the old one slid,
      and returns to a puzzle `Equal` to the original by the opposite move
      at cost two more. */
  lemma NeighborsProperties(p: Puzzle)
    requires WellFormed(p) && p.empty.Some?
    requires SingleBlank(p.board, p.size, p.empty.value.0, p.empty.value.1)
    ensures var r, ms := GetNeighbors(p), Slides(p.size, p.empty.value);
      && (p.size >= 2 ==> 2 <= |r| <= 4)
      && forall t | 0 <= t < |r| ::
           && r[t].gCost == p.gCost + 1
           && Words(r[t].path) == Words(p.path) + [Name(ms[t])]
           && r[t].empty == Some(Step(p.empty.value, ms[t]))
           && InBounds(p.size, Step(r[t].empty.value, Opposite(ms[t])))
           && var back := MakeMove(r[t], Opposite(ms[t]));
              Equal(back, p) && back.gCost == p.gCost + 2
  {
    var r, ms := GetNeighbors(p), Slides(p.size, p.empty.value);
    if p.size >= 2 {
      SlidesCount(p.size, p.empty.value);
    }
    forall t | 0 <= t < |r|
      ensures Words(r[t].path) == Words(p.path) + [Name(ms[t])]
      ensures r[t].empty == Some(Step(p.empty.value, ms[t]))
      ensures InBounds(p.size, Step(r[t].empty.value, Opposite(ms[t])))
      ensures var back := MakeMove(r[t], Opposite(ms[t]));
        Equal(back, p) && back.gCost == p.gCost + 2
    {
      NeighborOf(p, ms[t]);
    }
  }
}
