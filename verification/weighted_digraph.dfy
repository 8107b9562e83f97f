/** The weighted directed graph of the Johnson exercise (`DirectedGraph`):
    adjacency lists of `(target, weight)` pairs plus the list of all edges in
    insertion order, and walks along that edge list. */
module WeightedDigraph {

  datatype WEdge = WEdge(source: int, target: int, weight: int)

  datatype Digraph = Digraph(n: nat, adj: seq<seq<(int, int)>>, edges: seq<WEdge>)

  /** The constructor `DirectedGraph(n)`: `n` empty adjacency lists and no edges. */
  function NewDigraph(n: nat): (g: Digraph)
    ensures g.n == n && |g.adj| == n && g.edges == []
    ensures forall u | 0 <= u < n :: g.adj[u] == []
  {
    Digraph(n, seq(n, _ => []), [])
  }

  /** Both endpoints of every edge are vertices, and the adjacency lists
      and the edge list record the same edges. */
  ghost predicate Valid(g: Digraph)
  {
    && |g.adj| == g.n
    && (forall j | 0 <= j < |g.edges| :: 0 <= g.edges[j].source < g.n && 0 <= g.edges[j].target < g.n)
    && (forall u, k | 0 <= u < |g.adj| && 0 <= k < |g.adj[u]| ::
          WEdge(u, g.adj[u][k].0, g.adj[u][k].1) in g.edges)
    && (forall j | 0 <= j < |g.edges| ::
          (g.edges[j].target, g.edges[j].weight) in g.adj[g.edges[j].source])
  }

  lemma NewDigraphValid(n: nat)
    ensures Valid(NewDigraph(n))
  {
  }

  /** `addEdge(source, target, weight)` (lines 20-23): one more entry at the
      end of the source's list and of the edge list, nothing else. */
  function AddEdge(g: Digraph, source: int, target: int, weight: int): (r: Digraph)
    requires 0 <= source < |g.adj|
    ensures r.n == g.n && |r.adj| == |g.adj|
    ensures r.adj[source] == g.adj[source] + [(target, weight)]
    ensures forall u | 0 <= u < |g.adj| && u != source :: r.adj[u] == g.adj[u]
    ensures r.edges == g.edges + [WEdge(source, target, weight)]
  {
    Digraph(g.n, g.adj[source := g.adj[source] + [(target, weight)]], g.edges + [WEdge(source, target, weight)])
  }

  lemma AddEdgeValid(g: Digraph, source: int, target: int, weight: int)
    requires Valid(g) && 0 <= source < g.n && 0 <= target < g.n
    ensures Valid(AddEdge(g, source, target, weight))
  {
    var r := AddEdge(g, source, target, weight);
    forall u, k | 0 <= u < |r.adj| && 0 <= k < |r.adj[u]|
      ensures WEdge(u, r.adj[u][k].0, r.adj[u][k].1) in r.edges
    {
      if u != source || k < |g.adj[source]| {
        assert r.adj[u][k] == g.adj[u][k];
      }
    }
    forall j | 0 <= j < |r.edges|
      ensures (r.edges[j].target, r.edges[j].weight) in r.adj[r.edges[j].source]
    {
      if j < |g.edges| {
        var e := g.edges[j];
        assert (e.target, e.weight) in g.adj[e.source];
        assert r.edges[j] == e;
      } else {
        assert r.adj[source][|g.adj[source]|] == (target, weight);
      }
    }
  }

  /** `p` lists edge indices forming a walk from `from` to `to`. */
  ghost predicate EdgeWalk(edges: seq<WEdge>, from: int, p: seq<int>, to: int)
    decreases |p|
  {
    if |p| == 0 then to == from
    else
      var j := p[|p| - 1];
      && 0 <= j < |edges| && edges[j].target == to
      && EdgeWalk(edges, from, p[..|p| - 1], edges[j].source)
  }

  /** The total weight of the edges a walk uses (an index that names no
      edge weighs nothing; walks never hold one). */
  function WalkWeight(edges: seq<WEdge>, p: seq<int>): int
    decreases |p|
  {
    if |p| == 0 then 0
    else
      var j := p[|p| - 1];
      WalkWeight(edges, p[..|p| - 1]) + (if 0 <= j < |edges| then edges[j].weight else 0)
  }
}
