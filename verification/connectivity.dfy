/** Connectivity queries of LAB_01's `Graph`: whether the graph is
    connected, whether removing two vertices disconnects it, the list of
    such pairs, and the resulting vertex connectivity (0, 1, 2 or "at
    least 3").  Each query is stated against reachability (`Reach`,
    `ConnectedWithout`) and the articulation-point definition `CutVertex`. */
module Connectivity {
  import opened UndirectedGraph
  import opened VertexSearch
  import opened Articulation

  /** Removing `u` and `v` disconnects the graph; by the code's convention a
      graph of at most two vertices has no such pair. */
  ghost predicate CutPair(g: UGraph, u: int, v: int)
  {
    g.n > 2 && !ConnectedWithout(g, {u, v})
  }

  /** If every remaining vertex is reachable from one of them, any two are
      joined (through it). */
  lemma HubConnects(g: UGraph, removed: set<int>, s: int)
    requires Valid(g) && 0 <= s < g.n && s !in removed
    requires forall x | 0 <= x < g.n && x !in removed :: Reach(g, removed, s, x)
    ensures ConnectedWithout(g, removed)
  {
    forall a, b | 0 <= a < g.n && 0 <= b < g.n && a !in removed && b !in removed
      ensures Reach(g, removed, a, b)
    {
      ReachSymmetric(g, removed, s, a);
      ReachTrans(g, removed, a, s, b);
    }
  }

  /** `isConnected()` (lines 18-29): true for the empty graph; otherwise a
      search from vertex 0 must reach every vertex. */
  method IsConnected(g: UGraph) returns (r: bool)
    requires Valid(g)
    ensures r <==> ConnectedWithout(g, {})
  {
    if g.n == 0 {
      return true;
    }
    var marks := seq(g.n, _ => false);
    assert Marked(marks) == {};
    var visited := Visit(g, marks, 0);
    var i := 0;
    while i < g.n
      invariant 0 <= i <= g.n
      invariant forall j | 0 <= j < i :: visited[j]
    {
      if !visited[i] {
        return false;
      }
      i := i + 1;
    }
    HubConnects(g, {}, 0);
    return true;
  }

  /** `isCutPair(u, v)` (lines 160-181): false when there are at most two
      vertices; otherwise a search from the least vertex other than `u` and
      `v`, with both marked in advance, must miss some other vertex. */
  method IsCutPair(g: UGraph, u: int, v: int) returns (r: bool)
    requires Valid(g) && 0 <= u < g.n && 0 <= v < g.n
    ensures r <==> CutPair(g, u, v)
  {
    if g.n <= 2 {
      return false;
    }
    var marks := seq(g.n, _ => false)[u := true][v := true];
    assert Marked(marks) == {u, v};
    var start := 0;
    while start == u || start == v
      invariant 0 <= start <= 2
      invariant start >= 1 ==> 0 == u || 0 == v
      invariant start >= 2 ==> 1 == u || 1 == v
      decreases 2 - start
    {
      start := start + 1;
    }
    var visited := Visit(g, marks, start);
    var i := 0;
    while i < g.n
      invariant 0 <= i <= g.n
      invariant forall j | 0 <= j < i && j != u && j != v :: visited[j]
    {
      if i != u && i != v && !visited[i] {
        return true;
      }
      i := i + 1;
    }
    HubConnects(g, {u, v}, start);
    return false;
  }

  /** The pairs `findCutVertexPairs` tests: all of them up to 1000
      vertices (lines 109-116); above that only non-adjacent pairs with a
      common neighbour (lines 117-152). */
  ghost predicate Candidate(g: UGraph, i: int, j: int)
    requires 0 <= i < |g.adj| && 0 <= j < |g.adj|
  {
    g.n <= 1000 || (j !in g.adj[i] && exists x :: x in g.adj[i] && x in g.adj[j])
  }

  /** Lines 134-146: whether `i` and `j` have a neighbour in common. */
  method HasCommonNeighbour(g: UGraph, i: int, j: int) returns (b: bool)
    requires 0 <= i < |g.adj| && 0 <= j < |g.adj|
    ensures b <==> exists x :: x in g.adj[i] && x in g.adj[j]
  {
    var k := 0;
    while k < |g.adj[i]|
      invariant 0 <= k <= |g.adj[i]|
      invariant forall l | 0 <= l < k :: g.adj[i][l] !in g.adj[j]
    {
      if g.adj[i][k] in g.adj[j] {
        ghost var x := g.adj[i][k];
        assert x in g.adj[i] && x in g.adj[j];
        return true;
      }
      k := k + 1;
    }
    return false;
  }

  /** Whether the pair `(i, j)` is reported: by brute force up to 1000
      vertices (line 112), after the adjacency and common-neighbour filters
      above that (lines 131-149). */
  method TakePair(g: UGraph, i: int, j: int) returns (take: bool)
    requires Valid(g) && 0 <= i < g.n && 0 <= j < g.n
    ensures take <==> Candidate(g, i, j) && CutPair(g, i, j)
  {
    take := false;
    if g.n <= 1000 {
      take := IsCutPair(g, i, j);
    } else if j !in g.adj[i] {
      var common := HasCommonNeighbour(g, i, j);
      if common {
        take := IsCutPair(g, i, j);
      }
    }
  }

  /** The inner loop over `j > i` (lines 110-115 and 130-150): the cut
      pairs `(i, j)` among the candidates, by increasing `j`. */
  method PairsFrom(g: UGraph, i: int) returns (row: seq<(int, int)>)
    requires Valid(g) && 0 <= i < g.n
    ensures forall p :: p in row <==> p.0 == i && i < p.1 < g.n && Candidate(g, i, p.1) && CutPair(g, i, p.1)
    ensures forall a, b | 0 <= a < b < |row| :: row[a].1 < row[b].1
  {
    row := [];
    var j := i + 1;
    while j < g.n
      invariant i + 1 <= j <= g.n
      invariant forall p :: p in row <==> p.0 == i && i < p.1 < j && Candidate(g, i, p.1) && CutPair(g, i, p.1)
      invariant forall a, b | 0 <= a < b < |row| :: row[a].1 < row[b].1
    {
      var take := TakePair(g, i, j);
      if take {
        row := row + [(i, j)];
      }
      j := j + 1;
    }
  }

  /** Pairs in lexicographic order, as a `std::set` of pairs yields them. */
  predicate LexLess(p: (int, int), q: (int, int))
  {
    p.0 < q.0 || (p.0 == q.0 && p.1 < q.1)
  }

  /** No vertex is an articulation point. */
  ghost predicate NoCutVertex(g: UGraph)
  {
    forall x | 0 <= x < g.n :: !CutVertex(g, x)
  }

  /** `findCutVertexPairs()` (lines 99-157): nothing unless the graph is
      connected without articulation points; then exactly the candidate
      pairs `i < j` whose removal disconnects the graph, in lexicographic
      order. */
  method FindCutVertexPairs(g: UGraph) returns (pairs: seq<(int, int)>)
    requires Valid(g)
    ensures !(ConnectedWithout(g, {}) && NoCutVertex(g)) ==> pairs == []
    ensures ConnectedWithout(g, {}) && NoCutVertex(g) ==>
      forall p :: p in pairs <==> 0 <= p.0 < p.1 < g.n && Candidate(g, p.0, p.1) && CutPair(g, p.0, p.1)
    ensures forall a, b | 0 <= a < b < |pairs| :: LexLess(pairs[a], pairs[b])
  {
    var connected := IsConnected(g);
    if !connected {
      return [];
    }
    var aps := FindArticulationPoints(g);
    if aps != [] {
      assert CutVertex(g, aps[0]);
      return [];
    }
    pairs := [];
    var i := 0;
    while i < g.n
      invariant 0 <= i <= g.n
      invariant forall p :: p in pairs <==> 0 <= p.0 < i && p.0 < p.1 < g.n && Candidate(g, p.0, p.1) && CutPair(g, p.0, p.1)
      invariant forall a, b | 0 <= a < b < |pairs| :: LexLess(pairs[a], pairs[b])
      invariant forall a | 0 <= a < |pairs| :: pairs[a].0 < i
    {
      var row := PairsFrom(g, i);
      assert forall a | 0 <= a < |row| :: row[a].0 == i by {
        forall a | 0 <= a < |row| ensures row[a].0 == i {
          assert row[a] in row;
        }
      }
      pairs := pairs + row;
      i := i + 1;
    }
  }

  /** `getConnectivity()` (lines 195-208): 0 for a disconnected graph, 1
      with an articulation point, 2 with a cut pair among the candidates,
      and 3 otherwise. */
  method GetConnectivity(g: UGraph) returns (k: int)
    requires Valid(g)
    ensures 0 <= k <= 3
    ensures k == 0 <==> !ConnectedWithout(g, {})
    ensures k == 1 <==> ConnectedWithout(g, {}) && !NoCutVertex(g)
    ensures k == 2 <==> (ConnectedWithout(g, {}) && NoCutVertex(g) &&
                         exists i, j :: 0 <= i < j < g.n && Candidate(g, i, j) && CutPair(g, i, j))
    ensures k == 3 <==> (ConnectedWithout(g, {}) && NoCutVertex(g) &&
                         forall i, j | 0 <= i < j < g.n && Candidate(g, i, j) :: !CutPair(g, i, j))
  {
    var connected := IsConnected(g);
    if !connected {
      return 0;
    }
    var aps := FindArticulationPoints(g);
    if aps != [] {
      assert CutVertex(g, aps[0]);
      return 1;
    }
    var pairs := FindCutVertexPairs(g);
    if pairs != [] {
      assert pairs[0] in pairs;
      return 2;
    }
    forall i, j | 0 <= i < j < g.n && Candidate(g, i, j)
      ensures !CutPair(g, i, j)
    {
      assert (i, j) !in pairs;
    }
    return 3;
  }
}
