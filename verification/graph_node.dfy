/** LAB_03's `GraphNode`: a puzzle state with its side, the position of its
    blank and its string id, together with the solvability test and the
    heuristics the graph search uses. */
module GraphNode {
  import opened Outcome
  import opened Board
  import opened NodeId

  datatype Node = Node(size: nat, state: Grid, empty: Option<(int, int)>, id: string)

  /** What the constructors establish: a square state, the blank found by
      `findEmptyPosition` and the id written by `generateId`. */
  predicate WellFormed(n: Node)
  {
    Square(n.state, n.size) && n.empty == EmptyPosition(n.state, n.size) && n.id == IdOf(Flatten(n.state))
  }

  lemma IdNext(written: seq<int>, c: int, id: string, sep: string)
    requires id == IdOf(written) && sep == if |written| > 0 then "-" else ""
    ensures id + sep + Show(c) == IdOf(written + [c])
  {
    IdStep(written, c);
  }

  lemma PrefixSnoc(cells: seq<int>, row: seq<int>, j: int)
    requires 0 <= j < |row|
    ensures cells + row[..j] + [row[j]] == cells + row[..j + 1]
  {
    assert row[..j + 1] == row[..j] + [row[j]];
  }

  /** The inner loop of `generateId()`: writes one row's cells after those
      already written. */
  method ExtendId(cells: seq<int>, id0: string, row: seq<int>) returns (id: string)
    requires id0 == IdOf(cells)
    ensures id == IdOf(cells + row)
  {
    id := id0;
    ghost var written := cells;
    var j := 0;
    while j < |row|
      invariant 0 <= j <= |row| && |written| == |cells| + j
      invariant written == cells + row[..j]
      invariant id == IdOf(written)
    {
      var sep := if |cells| > 0 || j > 0 then "-" else "";
      IdNext(written, row[j], id, sep);
      id := id + sep + Show(row[j]);
      written := written + [row[j]];
      PrefixSnoc(cells, row, j);
      j := j + 1;
    }
    assert row[..|row|] == row;
  }

  /** `generateId()` (lines 51-60 of PuzzleGraph.cpp): every cell in
      row-major order, "-" before all but the first. */
  method GenerateId(state: Grid, k: nat) returns (id: string)
    requires Square(state, k)
    ensures id == IdOf(Flatten(state))
  {
    id := "";
    var i := 0;
    while i < k
      invariant 0 <= i <= k && id == IdOf(Flatten(state[..i]))
    {
      id := ExtendId(Flatten(state[..i]), id, state[i]);
      FlattenSnoc(state, i);
      i := i + 1;
    }
    assert state[..k] == state;
  }

  /** The constructor from a board (lines 33-37 of PuzzleGraph.cpp): the
      side is the number of rows. */
  function FromState(state: Grid): (n: Node)
    requires Square(state, |state|)
    ensures WellFormed(n) && n.state == state && n.size == |state|
  {
    Node(|state|, state, EmptyPosition(state, |state|), IdOf(Flatten(state)))
  }

  /** The constructor from a list (lines 11-31 of PuzzleGraph.cpp): a
      9-cell list makes a 3-board and a 16-cell list a 4-board, filled row
      by row; any other length throws. */
  function FromInput(input: seq<int>): (r: Result<Node>)
    ensures r.Ok? <==> |input| == 9 || |input| == 16
    ensures r.Ok? ==> (WellFormed(r.value) && r.value.size == (if |input| == 9 then 3 else 4) &&
                       Flatten(r.value.state) == input)
    ensures r.Invalid? ==> r.message == "Entrada inválida: deve ter 9 ou 16 elementos"
  {
    match Decode(input)
    case Ok(b) => Ok(FromState(b))
    case Invalid(msg) => Invalid(msg)
  }

  /** `operator==` (lines 315-317 of PuzzleGraph.cpp) compares ids only. */
  predicate Equal(a: Node, b: Node)
  {
    a.id == b.id
  }

  /** Comparing ids is comparing states: no two states share an id. */
  lemma EqualIffSameState(a: Node, b: Node)
    requires WellFormed(a) && WellFormed(b)
    ensures Equal(a, b) <==> a.state == b.state
  {
    IdInjective(Flatten(a.state), Flatten(b.state));
    if Flatten(a.state) == Flatten(b.state) {
      FlattenInjective(a.state, a.size, b.state, b.size);
    }
  }

  /** `operator<` (lines 319-321 of PuzzleGraph.cpp) orders ids as strings. */
  predicate Less(a: Node, b: Node)
  {
    StrLess(a.id, b.id)
  }

  /** `Less` is a strict total order on states: irreflexive, transitive, and
      any two nodes with different states are comparable. */
  lemma LessStrictTotal(a: Node, b: Node, c: Node)
    requires WellFormed(a) && WellFormed(b)
    ensures !Less(a, a)
    ensures Less(a, b) && Less(b, c) ==> Less(a, c)
    ensures a.state != b.state ==> Less(a, b) || Less(b, a)
  {
    StrLessIrreflexive(a.id);
    if Less(a, b) && Less(b, c) {
      StrLessTransitive(a.id, b.id, c.id);
    }
    StrLessTotal(a.id, b.id);
    EqualIffSameState(a, b);
  }

  /** The tiles of a list of cells: the non-zero ones, in order (the
      `linearState` of lines 87-99 of PuzzleGraph.cpp). */
  function Tiles(s: seq<int>): (r: seq<int>)
    ensures forall x :: x in r <==> x in s && x != 0
  {
    if |s| == 0 then [] else Tiles(s[..|s| - 1]) + (if s[|s| - 1] != 0 then [s[|s| - 1]] else [])
  }

  lemma TilesSnoc(s: seq<int>, c: int)
    ensures Tiles(s + [c]) == Tiles(s) + (if c != 0 then [c] else [])
  {
    assert (s + [c])[..|s|] == s;
  }

  /** How many cells of `s` are smaller than `x`. */
  function Below(x: int, s: seq<int>): nat
  {
    if |s| == 0 then 0 else Below(x, s[..|s| - 1]) + (if x > s[|s| - 1] then 1 else 0)
  }

  /** The inversions of a list: pairs of positions `i < j` holding
      `a[i] > a[j]`, counted by their first position. */
  function Inversions(a: seq<int>): nat
  {
    if |a| == 0 then 0 else Below(a[0], a[1..]) + Inversions(a[1..])
  }

  predicate Sorted(a: seq<int>)
  {
    forall i, j | 0 <= i < j < |a| :: a[i] <= a[j]
  }

  lemma {:induction false} BelowZero(x: int, s: seq<int>)
    ensures Below(x, s) == 0 <==> forall t | 0 <= t < |s| :: x <= s[t]
    decreases |s|
  {
    if |s| > 0 {
      BelowZero(x, s[..|s| - 1]);
    }
  }

  /** A list has no inversions exactly when it is sorted. */
  lemma {:induction false} InversionsZero(a: seq<int>)
    ensures Inversions(a) == 0 <==> Sorted(a)
    decreases |a|
  {
    if |a| > 0 {
      InversionsZero(a[1..]);
      BelowZero(a[0], a[1..]);
      if Sorted(a) {
        assert forall t | 0 <= t < |a[1..]| :: a[0] <= a[1..][t] by {
          forall t | 0 <= t < |a[1..]| ensures a[0] <= a[1..][t] {
            assert a[1..][t] == a[t + 1];
          }
        }
        assert Sorted(a[1..]) by {
          forall i, j | 0 <= i < j < |a[1..]| ensures a[1..][i] <= a[1..][j] {
            assert a[1..][i] == a[i + 1] && a[1..][j] == a[j + 1];
          }
        }
      }
      if Inversions(a) == 0 {
        forall i, j | 0 <= i < j < |a| ensures a[i] <= a[j] {
          assert a[j] == a[1..][j - 1];
          if i > 0 {
            assert a[i] == a[1..][i - 1];
          }
        }
      }
    }
  }

  lemma BelowSnoc(x: int, a: seq<int>, lo: int, j: int)
    requires 0 <= lo <= j < |a|
    ensures Below(x, a[lo..j + 1]) == Below(x, a[lo..j]) + (if x > a[j] then 1 else 0)
  {
    assert a[lo..j + 1][..j - lo] == a[lo..j];
  }

  lemma InversionsFrom(a: seq<int>, i: int)
    requires 0 <= i < |a|
    ensures Inversions(a[i..]) == Below(a[i], a[i + 1..]) + Inversions(a[i + 1..])
  {
    assert a[i..][1..] == a[i + 1..];
  }

  /** The inner loop of the inversion count (lines 103-107 of
      PuzzleGraph.cpp): the later elements smaller than `a[i]`. */
  method CountBelow(a: seq<int>, i: int) returns (count: int)
    requires 0 <= i < |a|
    ensures count == Below(a[i], a[i + 1..])
  {
    count := 0;
    var j := i + 1;
    while j < |a|
      invariant i + 1 <= j <= |a| && count == Below(a[i], a[i + 1..j])
    {
      BelowSnoc(a[i], a, i + 1, j);
      if a[i] > a[j] {
        count := count + 1;
      }
      j := j + 1;
    }
    assert a[i + 1..|a|] == a[i + 1..];
  }

  /** The inversion count of lines 101-108 of PuzzleGraph.cpp. */
  method CountInversions(a: seq<int>) returns (inversions: int)
    ensures inversions == Inversions(a)
  {
    inversions := 0;
    var i := 0;
    while i < |a|
      invariant 0 <= i <= |a| && inversions + Inversions(a[i..]) == Inversions(a)
    {
      var count := CountBelow(a, i);
      InversionsFrom(a, i);
      inversions := inversions + count;
      i := i + 1;
    }
  }

  /** The last of the first `i` rows that holds a blank, or -1 (the
      `blankRow` of lines 87-99 of PuzzleGraph.cpp, overwritten at every
      blank met). */
  function LastBlankRow(b: Grid, i: int): (r: int)
    requires 0 <= i <= |b|
    ensures -1 <= r < i
    ensures r == -1 <==> forall p | 0 <= p < i :: 0 !in b[p]
    ensures r >= 0 ==> 0 in b[r] && forall p | r < p < i :: 0 !in b[p]
  {
    if i == 0 then -1 else if 0 in b[i - 1] then i - 1 else LastBlankRow(b, i - 1)
  }

  /** The parity rule of lines 110-123 of PuzzleGraph.cpp: on an odd side the
      inversions must be even; on an even side they must be even when the
      blank's row counted from the bottom (from 1) is odd, and odd when it is
      even. */
  predicate Solvable(b: Grid, k: nat)
    requires Square(b, k)
  {
    var inversions := Inversions(Tiles(Flatten(b)));
    if k % 2 == 1 then inversions % 2 == 0
    else if (k - LastBlankRow(b, k)) % 2 == 1 then inversions % 2 == 0
    else inversions % 2 == 1
  }

  /** One row of the scan of lines 90-99: the row's tiles join the list and
      a blank in it moves `blankRow` here. */
  method ScanRow(cells: seq<int>, linear0: seq<int>, blank0: int, row: seq<int>, i: int)
    returns (linear: seq<int>, blankRow: int)
    requires linear0 == Tiles(cells)
    ensures linear == Tiles(cells + row)
    ensures blankRow == if 0 in row then i else blank0
  {
    linear, blankRow := linear0, blank0;
    var j := 0;
    assert cells + row[..0] == cells;
    while j < |row|
      invariant 0 <= j <= |row| && linear == Tiles(cells + row[..j])
      invariant blankRow == if 0 in row[..j] then i else blank0
    {
      TilesSnoc(cells + row[..j], row[j]);
      PrefixSnoc(cells, row, j);
      assert row[..j + 1] == row[..j] + [row[j]];
      if row[j] == 0 {
        blankRow := i;
      } else {
        linear := linear + [row[j]];
      }
      j := j + 1;
    }
    assert row[..|row|] == row;
  }

  /** `isSolvable()` (lines 85-124 of PuzzleGraph.cpp). */
  method IsSolvable(state: Grid, k: nat) returns (r: bool)
    requires Square(state, k)
    ensures r == Solvable(state, k)
  {
    var linear: seq<int> := [];
    var blankRow := -1;
    var i := 0;
    while i < k
      invariant 0 <= i <= k && linear == Tiles(Flatten(state[..i])) && blankRow == LastBlankRow(state, i)
    {
      linear, blankRow := ScanRow(Flatten(state[..i]), linear, blankRow, state[i], i);
      FlattenSnoc(state, i);
      i := i + 1;
    }
    assert state[..k] == state;
    var inversions := CountInversions(linear);
    if k % 2 == 1 {
      r := inversions % 2 == 0;
    } else {
      var blankRowFromBottom := k - blankRow;
      if blankRowFromBottom % 2 == 1 {
        r := inversions % 2 == 0;
      } else {
        r := inversions % 2 == 1;
      }
    }
  }

  /** The goal's cells in row-major order are `1, 2, ...` with the blank
      last. */
  lemma {:induction false} GoalCells(k: nat, i: nat)
    requires i <= k
    ensures |Flatten(Goal(k)[..i])| == i * k
    ensures forall p | 0 <= p < i * k :: Flatten(Goal(k)[..i])[p] == if p == k * k - 1 then 0 else p + 1
    decreases i
  {
    var g := Goal(k);
    FlattenLength(g[..i], k);
    if i > 0 {
      GoalCells(k, i - 1);
      FlattenSnoc(g, i - 1);
      var f, row := Flatten(g[..i - 1]), g[i - 1];
      assert (i - 1) * k + k == i * k;
      forall p | 0 <= p < i * k
        ensures (f + row)[p] == if p == k * k - 1 then 0 else p + 1
      {
        if p >= (i - 1) * k {
          var j := p - (i - 1) * k;
          assert (f + row)[p] == row[j];
          assert (i - 1 == k - 1 && j == k - 1) <==> p == k * k - 1 by {
            assert (k - 1) * k + (k - 1) == k * k - 1;
            if p == k * k - 1 {
              DivModUnique(p, k, i - 1, j);
              DivModUnique(p, k, k - 1, k - 1);
            }
          }
        }
      }
    }
  }

  /** Tiles met in increasing order make a sorted list. */
  lemma {:induction false} TilesSorted(s: seq<int>)
    requires forall p, q | 0 <= p < q < |s| && s[p] != 0 && s[q] != 0 :: s[p] <= s[q]
    ensures Sorted(Tiles(s))
    decreases |s|
  {
    if |s| > 0 {
      var init, c := s[..|s| - 1], s[|s| - 1];
      assert s == init + [c];
      TilesSorted(init);
      TilesSnoc(init, c);
      if c != 0 {
        var t := Tiles(init);
        forall x | x in t
          ensures x <= c
        {
          var p :| 0 <= p < |init| && init[p] == x;
          assert s[p] == x;
        }
        assert Tiles(s) == t + [c];
        forall a, b | 0 <= a < b < |t + [c]|
          ensures (t + [c])[a] <= (t + [c])[b]
        {
          assert (t + [c])[a] == t[a];
          if b == |t| {
            assert t[a] in t;
          }
        }
      }
    }
  }

  /** The goal board passes the solvability test. */
  lemma GoalSolvable(k: nat)
    requires k >= 1
    ensures Solvable(Goal(k), k)
  {
    var g := Goal(k);
    GoalCells(k, k);
    assert g[..k] == g;
    var cells := Flatten(g);
    TilesSorted(cells);
    InversionsZero(Tiles(cells));
    assert g[k - 1][k - 1] == 0;
    assert 0 in g[k - 1];
    assert LastBlankRow(g, k) == k - 1;
  }
}
