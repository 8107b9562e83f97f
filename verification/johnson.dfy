/** Johnson's all-pairs shortest paths (`allPairsShortestPaths` and the
    reweighted `dijkstra(source, h)` of LAB_02): potentials `h` from
    Bellman–Ford at a super vertex `n` joined to every vertex by a weight-0
    edge, rejection when some edge still violates them (a negative cycle),
    then one Dijkstra per source over the weights `w + h[u] - h[v]`.

    The reweighted Dijkstra is the same priority-queue search as the one of
    the min-cost flow engine (`PotentialSearch.Search`); it runs here over
    the adjacency lists seen as a graph of capacity-1, flow-0 edges, with
    `h` as the potential. */
module Johnson {
  import opened Dist
  import opened WeightedDigraph
  import opened Walks
  import BF = BellmanFord
  import RG = ResidualGraph
  import PS = PotentialSearch

  /** `aux` is `g` plus vertex `n` and the edges `n -> v` of weight 0,
      appended after `g`'s edges in vertex order. */
  ghost predicate AuxOf(g: Digraph, aux: Digraph)
  {
    && Valid(aux) && aux.n == g.n + 1
    && |aux.edges| == |g.edges| + g.n
    && aux.edges[..|g.edges|] == g.edges
    && forall v | 0 <= v < g.n :: aux.edges[|g.edges| + v] == WEdge(g.n, v, 0)
  }

  /** Lines 123-128: `n + 1` vertices and a copy of every edge of `g`. */
  method CopyEdges(g: Digraph) returns (aux: Digraph)
    requires Valid(g)
    ensures Valid(aux) && aux.n == g.n + 1 && aux.edges == g.edges
  {
    aux := NewDigraph(g.n + 1);
    NewDigraphValid(g.n + 1);
    var j := 0;
    while j < |g.edges|
      invariant 0 <= j <= |g.edges| && Valid(aux) && aux.n == g.n + 1 && aux.edges == g.edges[..j]
    {
      var e := g.edges[j];
      CopyStep(g, aux, j);
      aux := AddEdge(aux, e.source, e.target, e.weight);
      j := j + 1;
    }
    assert g.edges[..j] == g.edges;
  }

  /** Copying edge `j` extends the copy of the first `j` edges by one. */
  lemma CopyStep(g: Digraph, aux: Digraph, j: int)
    requires Valid(g) && Valid(aux) && aux.n == g.n + 1 && 0 <= j < |g.edges| && aux.edges == g.edges[..j]
    ensures var e := g.edges[j];
      && 0 <= e.source < |aux.adj|
      && var r := AddEdge(aux, e.source, e.target, e.weight);
         Valid(r) && r.n == g.n + 1 && r.edges == g.edges[..j + 1]
  {
    var e := g.edges[j];
    AddEdgeValid(aux, e.source, e.target, e.weight);
    assert g.edges[..j + 1] == g.edges[..j] + [e];
  }

  /** Lines 122-133: the auxiliary graph, built by `addEdge` calls. */
  method AuxGraph(g: Digraph) returns (aux: Digraph)
    requires Valid(g)
    ensures AuxOf(g, aux)
  {
    var n := g.n;
    aux := CopyEdges(g);
    var v := 0;
    while v < n
      invariant 0 <= v <= n && Valid(aux) && aux.n == n + 1 && |aux.edges| == |g.edges| + v
      invariant aux.edges[..|g.edges|] == g.edges
      invariant forall w | 0 <= w < v :: aux.edges[|g.edges| + w] == WEdge(n, w, 0)
    {
      AddEdgeValid(aux, n, v, 0);
      aux := AddEdge(aux, n, v, 0);
      v := v + 1;
    }
  }

  /** Edge `k` of `aux` is edge `k` of `g` or a weight-0 edge out of `n`;
      either way it ends at an original vertex. */
  lemma AuxEdge(g: Digraph, aux: Digraph, k: int)
    requires Valid(g) && AuxOf(g, aux) && 0 <= k < |aux.edges|
    ensures k < |g.edges| ==> aux.edges[k] == g.edges[k]
    ensures k >= |g.edges| ==> aux.edges[k] == WEdge(g.n, k - |g.edges|, 0)
    ensures 0 <= aux.edges[k].target < g.n
  {
    if k < |g.edges| {
      assert aux.edges[k] == aux.edges[..|g.edges|][k];
    } else {
      assert aux.edges[|g.edges| + (k - |g.edges|)] == WEdge(g.n, k - |g.edges|, 0);
    }
  }

  /** A walk of `aux` from an original vertex never reaches `n`, so it
      uses only `g`'s edges and is a walk of `g` of the same weight. */
  lemma {:induction false} OriginalWalk(g: Digraph, aux: Digraph, f: int, p: seq<int>, t: int)
    requires Valid(g) && AuxOf(g, aux) && 0 <= f < g.n && EdgeWalk(aux.edges, f, p, t)
    ensures EdgeWalk(g.edges, f, p, t) && WalkWeight(g.edges, p) == WalkWeight(aux.edges, p)
    ensures 0 <= t < g.n
    decreases |p|
  {
    if |p| > 0 {
      var j := p[|p| - 1];
      OriginalWalk(g, aux, f, p[..|p| - 1], aux.edges[j].source);
      AuxEdge(g, aux, j);
      assert j < |g.edges|;
    }
  }

  /** A negative cycle of `aux` is one of `g`. */
  lemma AuxCycleIsOriginal(g: Digraph, aux: Digraph)
    requires Valid(g) && AuxOf(g, aux) && HasNegativeCycle(aux.edges)
    ensures HasNegativeCycle(g.edges)
  {
    var v, p :| EdgeWalk(aux.edges, v, p, v) && WalkWeight(aux.edges, p) < 0;
    assert |p| > 0;
    AuxEdge(g, aux, p[|p| - 1]);
    OriginalWalk(g, aux, v, p, v);
  }

  /** Every original vertex gets a finite potential, at most 0: the edge
      `n -> v` alone is a walk of weight 0. */
  lemma PotentialsFinite(g: Digraph, aux: Digraph, h: seq<Dist>)
    requires Valid(g) && AuxOf(g, aux) && |h| == aux.n + 1
    requires BF.BoundsWalks(aux.edges, g.n, h, aux.n)
    ensures forall v | 0 <= v < g.n :: h[v].Fin? && h[v].v <= 0
  {
    forall v | 0 <= v < g.n
      ensures h[v].Fin? && h[v].v <= 0
    {
      var p := [|g.edges| + v];
      AuxEdge(g, aux, |g.edges| + v);
      assert p[..0] == [];
      assert EdgeWalk(aux.edges, g.n, p, v);
      assert WalkWeight(aux.edges, p) == 0;
    }
  }
  /** Edge `k` still violates the potentials: `h[t] > h[s] + w` with both
      finite (lines 140-141). */
  predicate Violates(g: Digraph, h: seq<Dist>, k: int)
    requires Valid(g) && |h| >= g.n && 0 <= k < |g.edges|
  {
    var e := g.edges[k];
    h[e.source] != Inf && h[e.target] != Inf && Less(Fin(h[e.source].v + e.weight), h[e.target])
  }

  /** Lines 139-144: is there an edge that violates the potentials? */
  method FindViolation(g: Digraph, h: seq<Dist>) returns (bad: bool)
    requires Valid(g) && |h| >= g.n
    ensures bad <==> exists k :: 0 <= k < |g.edges| && Violates(g, h, k)
  {
    var k := 0;
    while k < |g.edges|
      invariant 0 <= k <= |g.edges| && forall k' | 0 <= k' < k :: !Violates(g, h, k')
    {
      if Violates(g, h, k) {
        return true;
      }
      k := k + 1;
    }
    return false;
  }

  /** The finite potentials of the original vertices, as integers. */
  function Heights(g: Digraph, h: seq<Dist>): (hv: seq<int>)
    requires |h| >= g.n && forall v | 0 <= v < g.n :: h[v].Fin?
    ensures |hv| == g.n && forall v | 0 <= v < g.n :: h[v] == Fin(hv[v])
  {
    seq(g.n, v requires 0 <= v < g.n => h[v].v)
  }

  /** Every reweighted edge `w + h[s] - h[t]` is non-negative. */
  ghost predicate ReweightedNonNegative(g: Digraph, hv: seq<int>)
    requires Valid(g) && |hv| >= g.n
  {
    forall k | 0 <= k < |g.edges| ::
      g.edges[k].weight + hv[g.edges[k].source] - hv[g.edges[k].target] >= 0
  }

  /** With the Bellman–Ford potentials from the super vertex, some edge
      violates them exactly when `g` has a negative cycle; otherwise every
      reweighted edge is non-negative. */
  lemma RejectExactly(g: Digraph, aux: Digraph, h: seq<Dist>, wit: seq<seq<int>>)
    requires Valid(g) && AuxOf(g, aux) && |h| == aux.n + 1
    requires BF.Witnessed(aux.edges, g.n, h, wit) && BF.BoundsWalks(aux.edges, g.n, h, aux.n)
    ensures forall v | 0 <= v < g.n :: h[v].Fin?
    ensures (exists k :: 0 <= k < |g.edges| && Violates(g, h, k)) <==> HasNegativeCycle(g.edges)
    ensures !HasNegativeCycle(g.edges) ==> ReweightedNonNegative(g, Heights(g, h))
  {
    PotentialsFinite(g, aux, h);
    var hv := Heights(g, h);
    if k :| 0 <= k < |g.edges| && Violates(g, h, k) {
      ViolationMeansCycle(g, aux, h, wit, k);
    } else {
      forall k | 0 <= k < |g.edges|
        ensures hv[g.edges[k].target] <= hv[g.edges[k].source] + g.edges[k].weight
      {
        assert !Violates(g, h, k);
      }
      assert Potential(g.edges, hv);
      PotentialExcludesNegativeCycle(g.edges, hv);
    }
  }

  /** A violating edge extends the witness walk of its source to a walk of
      `aux` lighter than every short walk to its target; only a negative
      cycle allows that. */
  lemma ViolationMeansCycle(g: Digraph, aux: Digraph, h: seq<Dist>, wit: seq<seq<int>>, k: int)
    requires Valid(g) && AuxOf(g, aux) && |h| == aux.n + 1
    requires BF.Witnessed(aux.edges, g.n, h, wit) && BF.BoundsWalks(aux.edges, g.n, h, aux.n)
    requires 0 <= k < |g.edges| && Violates(g, h, k)
    ensures HasNegativeCycle(g.edges)
  {
    var e := g.edges[k];
    AuxEdge(g, aux, k);
    var q := wit[e.source] + [k];
    assert q[..|q| - 1] == wit[e.source];
    assert EdgeWalk(aux.edges, g.n, q, e.target);
    assert WalkWeight(aux.edges, q) < h[e.target].v;
    BoundedUnlessCycle(aux, g.n, h, q, e.target);
    AuxCycleIsOriginal(g, aux);
  }

  /** Without a negative cycle, the bound Bellman–Ford proves for short
      walks holds for every walk. */
  lemma BoundedUnlessCycle(g: Digraph, source: int, dist: seq<Dist>, p: seq<int>, v: int)
    requires Valid(g) && 0 <= source < g.n && EdgeWalk(g.edges, source, p, v)
    requires BF.BoundsWalks(g.edges, source, dist, g.n)
    ensures HasNegativeCycle(g.edges) || (0 <= v < |dist| && dist[v].Fin? && dist[v].v <= WalkWeight(g.edges, p))
  {
    if !HasNegativeCycle(g.edges) {
      Shorten(g.edges, g.n, source, p, v);
      var r :| EdgeWalk(g.edges, source, r, v) && |r| < g.n && WalkWeight(g.edges, r) <= WalkWeight(g.edges, p);
      assert 0 <= v < |dist| && dist[v].v <= WalkWeight(g.edges, r);
    }
  }

  /** Entry `k` of `u`'s adjacency list is recorded in the edge list. */
  lemma AdjEdge(g: Digraph, u: int, k: int) returns (j: int)
    requires Valid(g) && 0 <= u < |g.adj| && 0 <= k < |g.adj[u]|
    ensures 0 <= j < |g.edges| && g.edges[j] == WEdge(u, g.adj[u][k].0, g.adj[u][k].1)
    ensures 0 <= g.adj[u][k].0 < g.n
  {
    assert WEdge(u, g.adj[u][k].0, g.adj[u][k].1) in g.edges;
    j :| 0 <= j < |g.edges| && g.edges[j] == WEdge(u, g.adj[u][k].0, g.adj[u][k].1);
  }

  /** Edge `j` appears in the adjacency list of its source. */
  lemma EdgeAdj(g: Digraph, j: int) returns (k: int)
    requires Valid(g) && 0 <= j < |g.edges|
    ensures var e := g.edges[j];
      0 <= k < |g.adj[e.source]| && g.adj[e.source][k] == (e.target, e.weight)
  {
    var e := g.edges[j];
    assert (e.target, e.weight) in g.adj[e.source];
    k :| 0 <= k < |g.adj[e.source]| && g.adj[e.source][k] == (e.target, e.weight);
  }

  /** The adjacency lists as a graph of the flow engine: each `(v, w)`
      becomes an edge to `v` of cost `w`, capacity 1 and no flow, so every
      edge is usable. */
  function Converted(g: Digraph): (cg: RG.Graph)
    ensures |cg| == |g.adj|
    ensures forall u | 0 <= u < |g.adj| :: |cg[u]| == |g.adj[u]|
    ensures forall u, k | 0 <= u < |g.adj| && 0 <= k < |g.adj[u]| ::
      cg[u][k] == RG.Edge(g.adj[u][k].0, 1, g.adj[u][k].1, 0, 0)
  {
    seq(|g.adj|, u requires 0 <= u < |g.adj| =>
      seq(|g.adj[u]|, k requires 0 <= k < |g.adj[u]| => RG.Edge(g.adj[u][k].0, 1, g.adj[u][k].1, 0, 0)))
  }

  /** The converted graph meets what the search demands: heads in range and,
      under non-negative reweighted edges, `h` is feasible on all vertices. */
  lemma ConvertedFeasible(g: Digraph, h: seq<int>)
    requires Valid(g) && |h| == g.n && ReweightedNonNegative(g, h)
    ensures RG.HeadsInRange(Converted(g))
    ensures PS.Feasible(Converted(g), h, PS.VertexSet(g.n))
  {
    var cg := Converted(g);
    forall u, k | RG.IsPos(cg, u, k)
      ensures 0 <= cg[u][k].to < |cg|
      ensures PS.ReducedCost(cg, h, u, k) >= 0
    {
      var j := AdjEdge(g, u, k);
    }
  }

  /** Every walk from `source` bounds the reweighted distance of its end:
      `dist[v] <= W(p) + h[source] - h[v]`. */
  ghost predicate ReweightedBelow(g: Digraph, h: seq<int>, source: int, dist: seq<Dist>)
    requires |h| == g.n && |dist| == g.n && 0 <= source < g.n
  {
    forall p, v | EdgeWalk(g.edges, source, p, v) ::
      0 <= v < g.n && dist[v].Fin? && dist[v].v <= WalkWeight(g.edges, p) + h[source] - h[v]
  }

  /** Every finite reweighted distance is that of some walk from `source`. */
  ghost predicate ReweightedAttained(g: Digraph, h: seq<int>, source: int, dist: seq<Dist>)
    requires |h| == g.n && |dist| == g.n && 0 <= source < g.n
  {
    forall v | 0 <= v < g.n && dist[v].Fin? ::
      exists p :: EdgeWalk(g.edges, source, p, v) && WalkWeight(g.edges, p) + h[source] - h[v] == dist[v].v
  }

  /** Once every vertex is relaxed, no walk from the source beats the
      reweighted distance of its end. */
  lemma {:induction false} SearchBelow(g: Digraph, h: seq<int>, source: int, dist: seq<Dist>, p: seq<int>, v: int)
    requires Valid(g) && |h| == g.n && |dist| == g.n && 0 <= source < g.n
    requires dist[source] == Fin(0)
    requires forall u | 0 <= u < g.n :: PS.Relaxed(Converted(g), h, dist, u)
    requires EdgeWalk(g.edges, source, p, v)
    ensures 0 <= v < g.n && dist[v].Fin? && dist[v].v <= WalkWeight(g.edges, p) + h[source] - h[v]
    decreases |p|
  {
    if |p| > 0 {
      var j := p[|p| - 1];
      var e := g.edges[j];
      SearchBelow(g, h, source, dist, p[..|p| - 1], e.source);
      var k := EdgeAdj(g, j);
      var cg := Converted(g);
      assert PS.Relaxed(cg, h, dist, e.source);
      assert PS.HeadInRange(cg, e.source, k) && RG.Residual(cg[e.source][k]) > 0;
    }
  }

  /** Following tree edges back to the source spells out a walk whose
      reweighted weight is the distance found. */
  lemma {:induction false} SearchAttained(g: Digraph, h: seq<int>, source: int, dist: seq<Dist>,
                                          pv: seq<int>, pa: seq<int>, rank: seq<nat>, v: int)
    requires Valid(g) && |h| == g.n && 0 <= source < g.n
    requires PS.ShortestPathTree(Converted(g), h, source, PS.VertexSet(g.n), dist, pv, pa, rank)
    requires 0 <= v < g.n && dist[v].Fin?
    ensures exists p :: EdgeWalk(g.edges, source, p, v) && WalkWeight(g.edges, p) + h[source] - h[v] == dist[v].v
    decreases rank[v]
  {
    var cg := Converted(g);
    if v == source {
      assert EdgeWalk(g.edges, source, [], v);
    } else {
      assert pv[v] != -1;
      assert PS.TreeEdge(cg, h, dist, pv, pa, v) && rank[pv[v]] < rank[v];
      var u := pv[v];
      SearchAttained(g, h, source, dist, pv, pa, rank, u);
      var q :| EdgeWalk(g.edges, source, q, u) && WalkWeight(g.edges, q) + h[source] - h[u] == dist[u].v;
      var j := AdjEdge(g, u, pa[v]);
      var p := q + [j];
      assert p[..|p| - 1] == q;
      assert EdgeWalk(g.edges, source, p, v);
    }
  }

  /** `dijkstra(source, h)` (lines 85-118): the search of the flow engine
      over the weights `w + h[u] - h[v]`.  With those non-negative, entry
      `v` is `Inf` exactly when `v` is unreachable and otherwise the least
      reweighted weight of a walk from `source` to `v`. */
  method Dijkstra(g: Digraph, source: int, h: seq<int>) returns (dist: seq<Dist>)
    requires Valid(g) && 0 <= source < g.n && |h| == g.n && ReweightedNonNegative(g, h)
    ensures |dist| == g.n
    ensures ReweightedBelow(g, h, source, dist)
    ensures ReweightedAttained(g, h, source, dist)
  {
    ConvertedFeasible(g, h);
    var found, pv, pa;
    ghost var rank;
    found, dist, pv, pa, rank := PS.Search(Converted(g), h, source, source, PS.VertexSet(g.n));
    forall p, v | EdgeWalk(g.edges, source, p, v)
      ensures 0 <= v < g.n && dist[v].Fin? && dist[v].v <= WalkWeight(g.edges, p) + h[source] - h[v]
    {
      SearchBelow(g, h, source, dist, p, v);
    }
    forall v | 0 <= v < g.n && dist[v].Fin?
      ensures exists p :: EdgeWalk(g.edges, source, p, v) && WalkWeight(g.edges, p) + h[source] - h[v] == dist[v].v
    {
      SearchAttained(g, h, source, dist, pv, pa, rank, v);
    }
  }

  /** `d` is the shortest distance from `u` to `v`: no walk between them is
      lighter, so `Inf` means unreachable, and a finite `d` is the weight of
      some walk. */
  ghost predicate ShortestEntry(g: Digraph, u: int, v: int, d: Dist)
  {
    && (forall p | EdgeWalk(g.edges, u, p, v) :: d.Fin? && d.v <= WalkWeight(g.edges, p))
    && (d.Fin? ==> exists p :: EdgeWalk(g.edges, u, p, v) && WalkWeight(g.edges, p) == d.v)
  }

  ghost predicate ShortestRow(g: Digraph, u: int, row: seq<Dist>)
  {
    |row| == g.n && forall v | 0 <= v < g.n :: ShortestEntry(g, u, v, row[v])
  }

  /** Lines 154-159: undo the reweighting, `d(u, v) + h[v] - h[u]`, and
      keep `Inf` for the vertices the search did not reach. */
  function Restore(dist: seq<Dist>, h: seq<int>, u: int): (row: seq<Dist>)
    requires |h| >= |dist| && 0 <= u < |h|
    ensures |row| == |dist|
    ensures forall v | 0 <= v < |dist| :: row[v].Fin? == dist[v].Fin?
  {
    seq(|dist|, v requires 0 <= v < |dist| => if dist[v].Fin? then Fin(dist[v].v + h[v] - h[u]) else Inf)
  }

  /** Undoing the reweighting of a reweighted shortest row gives the
      shortest distances under the original weights. */
  lemma RowShortest(g: Digraph, h: seq<int>, u: int, dist: seq<Dist>)
    requires Valid(g) && |h| == g.n && |dist| == g.n && 0 <= u < g.n
    requires ReweightedBelow(g, h, u, dist) && ReweightedAttained(g, h, u, dist)
    ensures ShortestRow(g, u, Restore(dist, h, u))
  {
    var row := Restore(dist, h, u);
    forall v | 0 <= v < g.n
      ensures ShortestEntry(g, u, v, row[v])
    {
      if dist[v].Fin? {
        var p :| EdgeWalk(g.edges, u, p, v) && WalkWeight(g.edges, p) + h[u] - h[v] == dist[v].v;
        assert EdgeWalk(g.edges, u, p, v) && WalkWeight(g.edges, p) == row[v].v;
      }
    }
  }

  /** One row of the answer: Dijkstra from `u` on the reweighted graph,
      with the reweighting undone. */
  method Row(g: Digraph, hv: seq<int>, u: int) returns (row: seq<Dist>)
    requires Valid(g) && |hv| == g.n && ReweightedNonNegative(g, hv) && 0 <= u < g.n
    ensures ShortestRow(g, u, row)
  {
    var du := Dijkstra(g, u, hv);
    RowShortest(g, hv, u, du);
    row := Restore(du, hv, u);
  }

  /** The rows for every source, in order. */
  method Rows(g: Digraph, hv: seq<int>) returns (res: seq<seq<Dist>>)
    requires Valid(g) && |hv| == g.n && ReweightedNonNegative(g, hv)
    ensures |res| == g.n && forall u | 0 <= u < g.n :: ShortestRow(g, u, res[u])
  {
    res := [];
    var u := 0;
    while u < g.n
      invariant 0 <= u <= g.n && |res| == u
      invariant forall x | 0 <= x < u :: ShortestRow(g, x, res[x])
    {
      var row := Row(g, hv, u);
      res := res + [row];
      u := u + 1;
    }
  }

  /** `allPairsShortestPaths()` (lines 120-164): the empty matrix when `g`
      has a negative cycle; otherwise an `n` by `n` matrix whose entry
      `[u][v]` is the shortest distance from `u` to `v`, `Inf` when `v` is
      unreachable from `u`. */
  method AllPairsShortestPaths(g: Digraph) returns (res: seq<seq<Dist>>)
    requires Valid(g)
    ensures HasNegativeCycle(g.edges) ==> res == []
    ensures !HasNegativeCycle(g.edges) ==>
      |res| == g.n && forall u | 0 <= u < g.n :: ShortestRow(g, u, res[u])
  {
    var aux := AuxGraph(g);
    var h;
    ghost var wit;
    h, wit := BF.BellmanFord(aux, g.n);
    RejectExactly(g, aux, h, wit);
    var bad := FindViolation(g, h);
    if bad {
      return [];
    }
    var hv := Heights(g, h);
    res := Rows(g, hv);
  }
}
