/** The depth-first searches of LAB_01 (`dfs` and `dfsExcluding`): starting
    from a vertex, mark everything reachable through unmarked vertices.
    `dfsExcluding` is the same search with the two excluded vertices marked
    beforehand.  The recursion is modelled by an explicit stack; the set of
    vertices it marks is the same. */
module VertexSearch {
  import opened UndirectedGraph

  /** The vertices marked in `marks`. */
  function Marked(marks: seq<bool>): (r: set<int>)
    ensures forall x :: x in r <==> 0 <= x < |marks| && marks[x]
  {
    set x | 0 <= x < |marks| && marks[x]
  }

  /** The vertices not yet marked: shrinks with every new mark. */
  function Unvisited(visited: seq<bool>): set<int>
  {
    set x | 0 <= x < |visited| && !visited[x]
  }

  /** Every neighbour of `x` is marked. */
  ghost predicate Explored(g: UGraph, visited: seq<bool>, x: int)
    requires 0 <= x < |g.adj|
  {
    forall y | y in g.adj[x] :: 0 <= y < |visited| && visited[y]
  }

  /** What holds between two pops: the marks only grow beyond `marks`,
      each new mark is reachable from `s` avoiding `marks`, and a newly
      marked vertex off the stack (other than `x`, under scan) has all its
      neighbours marked. */
  ghost predicate SearchInv(g: UGraph, marks: seq<bool>, s: int, visited: seq<bool>, stack: seq<int>, x: int)
  {
    && Valid(g) && |marks| == g.n && |visited| == g.n && 0 <= s < g.n && visited[s]
    && (forall z | 0 <= z < g.n && marks[z] :: visited[z])
    && (forall z | 0 <= z < g.n && visited[z] && !marks[z] :: Reach(g, Marked(marks), s, z))
    && (forall k | 0 <= k < |stack| :: 0 <= stack[k] < g.n && visited[stack[k]] && !marks[stack[k]])
    && (forall z | 0 <= z < g.n && visited[z] && !marks[z] && z !in stack && z != x :: Explored(g, visited, z))
  }

  /** The loop over `adj[x]` (lines 34-38): mark and stack every unmarked
      neighbour. */
  method Expand(g: UGraph, marks: seq<bool>, s: int, visited0: seq<bool>, stack0: seq<int>, x: int)
    returns (visited: seq<bool>, stack: seq<int>)
    requires SearchInv(g, marks, s, visited0, stack0, x)
    requires 0 <= x < g.n && visited0[x] && !marks[x]
    ensures SearchInv(g, marks, s, visited, stack, -1)
    ensures Unvisited(visited) <= Unvisited(visited0)
    ensures Unvisited(visited) == Unvisited(visited0) ==> stack == stack0
  {
    visited, stack := visited0, stack0;
    var k := 0;
    while k < |g.adj[x]|
      invariant 0 <= k <= |g.adj[x]|
      invariant SearchInv(g, marks, s, visited, stack, x) && visited[x]
      invariant forall j | 0 <= j < k :: visited[g.adj[x][j]]
      invariant Unvisited(visited) <= Unvisited(visited0)
      invariant Unvisited(visited) == Unvisited(visited0) ==> stack == stack0
    {
      var y := g.adj[x][k];
      if !visited[y] {
        MarkNeighbour(g, marks, s, visited, stack, x, y);
        visited := visited[y := true];
        stack := stack + [y];
      }
      k := k + 1;
    }
    forall z | z in g.adj[x]
      ensures 0 <= z < |visited| && visited[z]
    {
      var j :| 0 <= j < |g.adj[x]| && g.adj[x][j] == z;
    }
  }

  /** Marking and stacking an unmarked neighbour `y` of `x` keeps the
      invariant and removes `y` from the unmarked vertices. */
  lemma MarkNeighbour(g: UGraph, marks: seq<bool>, s: int, visited: seq<bool>, stack: seq<int>, x: int, y: int)
    requires SearchInv(g, marks, s, visited, stack, x)
    requires 0 <= x < g.n && visited[x] && !marks[x]
    requires y in g.adj[x] && !visited[y]
    ensures SearchInv(g, marks, s, visited[y := true], stack + [y], x)
    ensures Unvisited(visited[y := true]) < Unvisited(visited)
  {
    assert 0 <= y < g.n;
    assert y in Unvisited(visited) && y !in Unvisited(visited[y := true]);
    ReachExtend(g, Marked(marks), s, x, y);
    var v' := visited[y := true];
    forall z | 0 <= z < g.n && v'[z] && !marks[z] && z !in stack + [y] && z != x
      ensures Explored(g, v', z)
    {
      assert Explored(g, visited, z);
    }
  }

  /** `dfs(s, visited)` with `visited` initially `marks`: afterwards exactly
      the marked vertices and those reachable from `s` without passing a
      marked vertex are marked. */
  method Visit(g: UGraph, marks: seq<bool>, s: int) returns (visited: seq<bool>)
    requires Valid(g) && |marks| == g.n && 0 <= s < g.n && !marks[s]
    ensures |visited| == g.n
    ensures forall x | 0 <= x < g.n :: visited[x] <==> marks[x] || Reach(g, Marked(marks), s, x)
  {
    visited := marks[s := true];
    var stack := [s];
    ReachSelf(g, Marked(marks), s);
    while stack != []
      invariant SearchInv(g, marks, s, visited, stack, -1)
      decreases Unvisited(visited), |stack|
    {
      var x := stack[|stack| - 1];
      stack := stack[..|stack| - 1];
      visited, stack := Expand(g, marks, s, visited, stack, x);
    }
    var inner := seq(g.n, z requires 0 <= z < g.n => visited[z] && !marks[z]);
    forall x | 0 <= x < g.n && Reach(g, Marked(marks), s, x)
      ensures visited[x]
    {
      var p :| Walk(g, Marked(marks), p) && p[0] == s && p[|p| - 1] == x;
      ClosedHoldsReach(g, Marked(marks), inner, p);
    }
  }
}
