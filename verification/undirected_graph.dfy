/** The undirected graph of the connectivity exercise (`Graph` of LAB_01):
    `n` vertices and one adjacency list per vertex, every edge stored in the
    lists of both ends; and walks that avoid a set of removed vertices. */
module UndirectedGraph {

  /** `n`, the edge count `m` given to the constructor, and `adj`. */
  datatype UGraph = UGraph(n: nat, m: int, adj: seq<seq<int>>)

  /** The constructor `Graph(vertices, edges)`: `n` empty lists. */
  function NewGraph(n: nat, m: int): (g: UGraph)
    ensures g.n == n && g.m == m && |g.adj| == n
    ensures forall u | 0 <= u < n :: g.adj[u] == []
  {
    UGraph(n, m, seq(n, _ => []))
  }

  /** Every neighbour is a vertex, and `v` lists `u` whenever `u` lists `v`. */
  ghost predicate Valid(g: UGraph)
  {
    && |g.adj| == g.n
    && (forall u, k | 0 <= u < g.n && 0 <= k < |g.adj[u]| :: 0 <= g.adj[u][k] < g.n)
    && (forall u, k | 0 <= u < g.n && 0 <= k < |g.adj[u]| :: u in g.adj[g.adj[u][k]])
  }

  lemma NewGraphValid(n: nat, m: int)
    ensures Valid(NewGraph(n, m))
  {
  }

  /** `addEdge(u, v)` (lines 12-15): `v` appended to `u`'s list, then `u`
      to `v`'s (so a loop `u == v` adds `u` twice to its own list). */
  function AddEdge(g: UGraph, u: int, v: int): (r: UGraph)
    requires 0 <= u < |g.adj| && 0 <= v < |g.adj|
    ensures r.n == g.n && r.m == g.m && |r.adj| == |g.adj|
    ensures u != v ==> r.adj[u] == g.adj[u] + [v] && r.adj[v] == g.adj[v] + [u]
    ensures u == v ==> r.adj[u] == g.adj[u] + [u, u]
    ensures forall w | 0 <= w < |g.adj| && w != u && w != v :: r.adj[w] == g.adj[w]
  {
    var a := g.adj[u := g.adj[u] + [v]];
    UGraph(g.n, g.m, a[v := a[v] + [u]])
  }

  lemma AddEdgeValid(g: UGraph, u: int, v: int)
    requires Valid(g) && 0 <= u < g.n && 0 <= v < g.n
    ensures Valid(AddEdge(g, u, v))
  {
    var r := AddEdge(g, u, v);
    forall x, k | 0 <= x < r.n && 0 <= k < |r.adj[x]|
      ensures 0 <= r.adj[x][k] < r.n && x in r.adj[r.adj[x][k]]
    {
      var y := r.adj[x][k];
      if k < |g.adj[x]| {
        assert y == g.adj[x][k];
        assert x in g.adj[y];
        assert g.adj[y] <= r.adj[y];
      } else if x == u && y == v {
        assert u in r.adj[v];
      } else {
        assert x == v && y == u;
        assert v in r.adj[u];
      }
    }
  }

  predicate Adjacent(g: UGraph, a: int, b: int)
  {
    0 <= a < |g.adj| && b in g.adj[a]
  }

  /** `p` is a non-empty sequence of vertices outside `removed`, each
      adjacent to the next. */
  ghost predicate Walk(g: UGraph, removed: set<int>, p: seq<int>)
    decreases |p|
  {
    && |p| > 0
    && 0 <= p[|p| - 1] < g.n && p[|p| - 1] !in removed
    && (|p| > 1 ==> Walk(g, removed, p[..|p| - 1]) && Adjacent(g, p[|p| - 2], p[|p| - 1]))
  }

  /** `b` can be reached from `a` without entering `removed`. */
  ghost predicate Reach(g: UGraph, removed: set<int>, a: int, b: int)
  {
    exists p :: Walk(g, removed, p) && p[0] == a && p[|p| - 1] == b
  }

  /** Any two vertices outside `removed` are joined by a walk avoiding it:
      with `removed` empty, the graph is connected. */
  ghost predicate ConnectedWithout(g: UGraph, removed: set<int>)
  {
    forall a, b | 0 <= a < g.n && 0 <= b < g.n && a !in removed && b !in removed :: Reach(g, removed, a, b)
  }

  lemma ReachSelf(g: UGraph, removed: set<int>, a: int)
    requires 0 <= a < g.n && a !in removed
    ensures Reach(g, removed, a, a)
  {
    assert Walk(g, removed, [a]);
  }

  lemma ReachExtend(g: UGraph, removed: set<int>, a: int, b: int, c: int)
    requires Reach(g, removed, a, b) && Adjacent(g, b, c) && 0 <= c < g.n && c !in removed
    ensures Reach(g, removed, a, c)
  {
    var p :| Walk(g, removed, p) && p[0] == a && p[|p| - 1] == b;
    var q := p + [c];
    assert q[..|q| - 1] == p;
    assert Walk(g, removed, q);
  }

  /** Every vertex of a walk is a vertex outside `removed`. */
  lemma {:induction false} WalkVertices(g: UGraph, removed: set<int>, p: seq<int>, k: int)
    requires Walk(g, removed, p) && 0 <= k < |p|
    ensures 0 <= p[k] < g.n && p[k] !in removed
    decreases |p|
  {
    if k < |p| - 1 {
      WalkVertices(g, removed, p[..|p| - 1], k);
    }
  }

  /** A walk from `a` to `b` followed by one from `b` to `c`. */
  lemma {:induction false} WalkJoin(g: UGraph, removed: set<int>, p: seq<int>, q: seq<int>)
    requires Walk(g, removed, p) && Walk(g, removed, q) && p[|p| - 1] == q[0]
    ensures Walk(g, removed, p + q[1..]) && (p + q[1..])[0] == p[0]
    ensures (p + q[1..])[|p + q[1..]| - 1] == q[|q| - 1]
    decreases |q|
  {
    if |q| == 1 {
      assert p + q[1..] == p;
    } else {
      var q' := q[..|q| - 1];
      WalkJoin(g, removed, p, q');
      var r := p + q[1..];
      assert r[..|r| - 1] == p + q'[1..];
    }
  }

  lemma ReachTrans(g: UGraph, removed: set<int>, a: int, b: int, c: int)
    requires Reach(g, removed, a, b) && Reach(g, removed, b, c)
    ensures Reach(g, removed, a, c)
  {
    var p :| Walk(g, removed, p) && p[0] == a && p[|p| - 1] == b;
    var q :| Walk(g, removed, q) && q[0] == b && q[|q| - 1] == c;
    WalkJoin(g, removed, p, q);
  }

  /** Walks can be reversed, because every edge is stored both ways. */
  lemma {:induction false} ReachSym(g: UGraph, removed: set<int>, a: int, b: int, p: seq<int>)
    requires Valid(g) && Walk(g, removed, p) && p[0] == a && p[|p| - 1] == b
    ensures Reach(g, removed, b, a)
    decreases |p|
  {
    if |p| == 1 {
      ReachSelf(g, removed, a);
    } else {
      var p' := p[..|p| - 1];
      var c := p[|p| - 2];
      ReachSym(g, removed, a, c, p');
      WalkVertices(g, removed, p, |p| - 2);
      var k :| 0 <= k < |g.adj[c]| && g.adj[c][k] == b;
      assert Adjacent(g, b, c);
      ReachSelf(g, removed, b);
      ReachExtend(g, removed, b, b, c);
      ReachTrans(g, removed, b, c, a);
    }
  }

  /** A set of marked vertices that contains `a` and every unremoved
      neighbour of its members contains everything reachable from `a`. */
  lemma {:induction false} ClosedHoldsReach(g: UGraph, removed: set<int>, marked: seq<bool>, p: seq<int>)
    requires |marked| == g.n && Walk(g, removed, p) && 0 <= p[0] < g.n && marked[p[0]]
    requires forall x, y | 0 <= x < g.n && marked[x] && Adjacent(g, x, y) && 0 <= y < g.n && y !in removed :: marked[y]
    ensures marked[p[|p| - 1]]
    decreases |p|
  {
    if |p| > 1 {
      var p' := p[..|p| - 1];
      ClosedHoldsReach(g, removed, marked, p');
      WalkVertices(g, removed, p, |p| - 2);
    }
  }

  /** Consecutive vertices of a walk are adjacent. */
  lemma {:induction false} WalkStep(g: UGraph, removed: set<int>, p: seq<int>, k: int)
    requires Walk(g, removed, p) && 0 <= k < |p| - 1
    ensures Adjacent(g, p[k], p[k + 1])
    decreases |p|
  {
    if k < |p| - 2 {
      WalkStep(g, removed, p[..|p| - 1], k);
    }
  }

  /** A stretch of a walk is a walk. */
  lemma {:induction false} WalkSlice(g: UGraph, removed: set<int>, p: seq<int>, i: int, j: int)
    requires Walk(g, removed, p) && 0 <= i < j <= |p|
    ensures Walk(g, removed, p[i..j])
    decreases |p|
  {
    if j < |p| {
      WalkSlice(g, removed, p[..|p| - 1], i, j);
      assert p[..|p| - 1][i..j] == p[i..j];
    } else if j - i > 1 {
      WalkSlice(g, removed, p[..|p| - 1], i, j - 1);
      var q := p[i..j];
      assert q[..|q| - 1] == p[..|p| - 1][i..j - 1];
    }
  }

  /** A walk that never enters `more` also avoids `removed + more`. */
  lemma {:induction false} WalkAvoiding(g: UGraph, removed: set<int>, more: set<int>, p: seq<int>)
    requires Walk(g, removed, p) && forall k | 0 <= k < |p| :: p[k] !in more
    ensures Walk(g, removed + more, p)
    decreases |p|
  {
    if |p| > 1 {
      WalkAvoiding(g, removed, more, p[..|p| - 1]);
    }
  }

  /** Removing fewer vertices keeps every walk. */
  lemma {:induction false} WalkWiden(g: UGraph, removed: set<int>, fewer: set<int>, p: seq<int>)
    requires Walk(g, removed, p) && fewer <= removed
    ensures Walk(g, fewer, p)
    decreases |p|
  {
    if |p| > 1 {
      WalkWiden(g, removed, fewer, p[..|p| - 1]);
    }
  }

  lemma ReachWiden(g: UGraph, removed: set<int>, fewer: set<int>, a: int, b: int)
    requires Reach(g, removed, a, b) && fewer <= removed
    ensures Reach(g, fewer, a, b)
  {
    var p :| Walk(g, removed, p) && p[0] == a && p[|p| - 1] == b;
    WalkWiden(g, removed, fewer, p);
  }

  lemma ReachSymmetric(g: UGraph, removed: set<int>, a: int, b: int)
    requires Valid(g) && Reach(g, removed, a, b)
    ensures Reach(g, removed, b, a)
  {
    var p :| Walk(g, removed, p) && p[0] == a && p[|p| - 1] == b;
    ReachSym(g, removed, a, b, p);
  }

  /** Adjacency is symmetric. */
  lemma AdjacentSymmetric(g: UGraph, a: int, b: int)
    requires Valid(g) && Adjacent(g, a, b)
    ensures Adjacent(g, b, a)
  {
    var k :| 0 <= k < |g.adj[a]| && g.adj[a][k] == b;
  }
}
