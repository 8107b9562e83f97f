/** The residual graph of the min-cost flow engine (`Grafo` and `Aresta`).

    Every arc added by the caller is stored twice: a forward edge in the
    adjacency list of its tail and a reverse edge in the list of its head,
    each remembering the other's position.  Pushing flow only ever changes
    the `flow` field; the shape of the graph is fixed after construction.
 */
module ResidualGraph {

  /** One stored edge (`Aresta`): head, capacity, cost, current flow and the
      index of the paired edge inside the head's adjacency list. */
  datatype Edge = Edge(to: int, cap: int, cost: int, flow: int, rev: int)

  /** `lista_adj`: one ordered adjacency list per vertex. */
  type Graph = seq<seq<Edge>>

  /** An arc as the caller supplies it: tail, head, capacity and cost. */
  datatype Arc = Arc(from: int, to: int, cap: int, cost: int)

  /** Capacity still available on an edge (`capacidade - fluxo`). */
  function Residual(e: Edge): int
  {
    e.cap - e.flow
  }

  predicate IsPos(g: Graph, u: int, i: int)
  {
    0 <= u < |g| && 0 <= i < |g[u]|
  }

  /** The constructor `Grafo(n)`: `n` empty adjacency lists. */
  function NewGraph(n: nat): (g: Graph)
    ensures |g| == n
    ensures forall v | 0 <= v < n :: |g[v]| == 0
  {
    seq(n, _ => [])
  }

  /** `obter_numero_vertices`. */
  function VertexCount(g: Graph): nat
  {
    |g|
  }

  /** `adicionar_aresta(from, to, cap, cost)`.  The forward edge records the
      length the head's list has before anything is appended, the reverse
      edge the length the tail's list has before anything is appended; for a
      self-loop both therefore name the forward edge. */
  function AddEdge(g: Graph, from: int, to: int, cap: int, cost: int): (r: Graph)
    requires 0 <= from < |g| && 0 <= to < |g|
    ensures |r| == |g|
    ensures from != to ==> |r[from]| == |g[from]| + 1 && |r[to]| == |g[to]| + 1
    ensures from == to ==> |r[from]| == |g[from]| + 2
    ensures r[from][|g[from]|] == Edge(to, cap, cost, 0, |g[to]|)
    ensures r[to][|r[to]| - 1] == Edge(from, 0, -cost, 0, |g[from]|)
    ensures forall v, i | IsPos(g, v, i) :: IsPos(r, v, i) && r[v][i] == g[v][i]
    ensures forall v | 0 <= v < |g| && v != from && v != to :: r[v] == g[v]
  {
    var forward := Edge(to, cap, cost, 0, |g[to]|);
    var backward := Edge(from, 0, -cost, 0, |g[from]|);
    var g1 := g[from := g[from] + [forward]];
    g1[to := g1[to] + [backward]]
  }

  /** The edge stored at position `rev` of the head's list. */
  function Partner(g: Graph, u: int, i: int): Edge
    requires IsPos(g, u, i)
    requires IsPos(g, g[u][i].to, g[u][i].rev)
  {
    g[g[u][i].to][g[u][i].rev]
  }

  /** The structural invariant of one stored edge: its head and partner index
      are in range and, unless it is a self-loop, its partner points back at
      it, has the opposite cost and carries the opposite flow; every edge
      carries at most its capacity. */
  predicate EdgeOk(g: Graph, u: int, i: int)
    requires IsPos(g, u, i)
  {
    var e := g[u][i];
    && 0 <= e.to < |g|
    && 0 <= e.rev < |g[e.to]|
    && e.flow <= e.cap
    && (e.to != u ==>
          var p := g[e.to][e.rev];
          p.to == u && p.rev == i && p.cost == -e.cost && p.flow == -e.flow)
  }

  ghost predicate WellFormed(g: Graph)
  {
    forall u, i | IsPos(g, u, i) :: EdgeOk(g, u, i)
  }

  /** Every stored edge ends at a vertex of the graph. */
  ghost predicate HeadsInRange(g: Graph)
  {
    forall u, k | IsPos(g, u, k) :: 0 <= g[u][k].to < |g|
  }

  lemma WellFormedHeads(g: Graph)
    requires WellFormed(g)
    ensures HeadsInRange(g)
  {
    forall u, k | IsPos(g, u, k)
      ensures 0 <= g[u][k].to < |g|
    {
      assert EdgeOk(g, u, k);
    }
  }

  ghost predicate ZeroFlow(g: Graph)
  {
    forall u, i | IsPos(g, u, i) :: g[u][i].flow == 0
  }

  /** The two graphs differ at most in the `flow` of their edges. */
  ghost predicate SameShape(g: Graph, h: Graph)
  {
    && |g| == |h|
    && (forall u | 0 <= u < |g| :: |g[u]| == |h[u]|)
    && (forall u, i | IsPos(g, u, i) ::
          g[u][i].to == h[u][i].to && g[u][i].cap == h[u][i].cap &&
          g[u][i].cost == h[u][i].cost && g[u][i].rev == h[u][i].rev)
  }

  /** Right after `adicionar_aresta` on distinct vertices the new forward and
      reverse edges name each other. */
  lemma AddEdgePairs(g: Graph, from: int, to: int, cap: int, cost: int)
    requires 0 <= from < |g| && 0 <= to < |g| && from != to
    ensures var r := AddEdge(g, from, to, cap, cost);
      && r[to][r[from][|g[from]|].rev] == Edge(from, 0, -cost, 0, |g[from]|)
      && r[from][r[to][|g[to]|].rev] == Edge(to, cap, cost, 0, |g[to]|)
  {
  }

  /** For a self-loop the forward edge's partner index names the forward
      edge itself rather than the reverse edge appended after it. */
  lemma AddSelfLoopPointsToItself(g: Graph, v: int, cap: int, cost: int)
    requires 0 <= v < |g|
    ensures var r := AddEdge(g, v, v, cap, cost);
      && r[v][|g[v]|].rev == |g[v]|
      && r[v][|g[v]| + 1].rev == |g[v]|
  {
  }

  /** `adicionar_aresta` keeps the structural invariant and zero flow, given
      a capacity that is not negative. */
  lemma AddEdgeKeepsInvariant(g: Graph, from: int, to: int, cap: int, cost: int)
    requires 0 <= from < |g| && 0 <= to < |g|
    requires cap >= 0
    requires WellFormed(g)
    ensures WellFormed(AddEdge(g, from, to, cap, cost))
    ensures ZeroFlow(g) ==> ZeroFlow(AddEdge(g, from, to, cap, cost))
  {
    var r := AddEdge(g, from, to, cap, cost);
    forall u, i | IsPos(r, u, i)
      ensures EdgeOk(r, u, i)
    {
      if IsPos(g, u, i) {
        assert EdgeOk(g, u, i);
        assert r[u][i] == g[u][i];
        var e := g[u][i];
        assert IsPos(g, e.to, e.rev);
      }
    }
  }

  predicate ArcsInRange(n: nat, arcs: seq<Arc>)
  {
    forall k | 0 <= k < |arcs| :: 0 <= arcs[k].from < n && 0 <= arcs[k].to < n
  }

  /** The graph a caller builds by adding `arcs` one by one to `Grafo(n)`. */
  function Build(n: nat, arcs: seq<Arc>): (g: Graph)
    requires ArcsInRange(n, arcs)
    ensures |g| == n
    decreases |arcs|
  {
    if |arcs| == 0 then NewGraph(n)
    else
      var a := arcs[|arcs| - 1];
      AddEdge(Build(n, arcs[..|arcs| - 1]), a.from, a.to, a.cap, a.cost)
  }

  /** A graph built from arcs with non-negative capacities is well formed and
      carries no flow. */
  lemma {:induction false} BuildWellFormed(n: nat, arcs: seq<Arc>)
    requires ArcsInRange(n, arcs)
    requires forall k | 0 <= k < |arcs| :: arcs[k].cap >= 0
    ensures WellFormed(Build(n, arcs)) && ZeroFlow(Build(n, arcs))
    decreases |arcs|
  {
    if |arcs| > 0 {
      var a := arcs[|arcs| - 1];
      var prefix := arcs[..|arcs| - 1];
      assert ArcsInRange(n, prefix);
      BuildWellFormed(n, prefix);
      AddEdgeKeepsInvariant(Build(n, prefix), a.from, a.to, a.cap, a.cost);
    }
  }
}
