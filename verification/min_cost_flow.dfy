/** The min-cost max-flow engine `FluxoCustoMinimo`: successive shortest
    augmenting paths under reduced costs (`executar`), and the source side of
    the minimum cut read off the final residual graph (`obter_corte_minimo`).

    `executar` mutates the graph it was given; here it returns the final
    graph alongside the flow value and the cost. */
module MinCostFlow {
  import opened Dist
  import opened ResidualGraph
  import opened PotentialSearch
  import opened Augment
  import opened FlowCut

  /** Lines 25-31 of `executar`: every reached vertex adds its distance to
      its potential; unreached vertices keep theirs. */
  function Advance(pi: seq<int>, dist: seq<Dist>): (pi2: seq<int>)
    requires |dist| == |pi|
    ensures |pi2| == |pi|
    ensures forall x | 0 <= x < |pi| && dist[x].Fin? :: pi2[x] - pi[x] == dist[x].v
    ensures forall x | 0 <= x < |pi| && !dist[x].Fin? :: pi2[x] == pi[x]
  {
    seq(|pi|, x requires 0 <= x < |pi| => if dist[x].Fin? then pi[x] + dist[x].v else pi[x])
  }

  /** The vertices a search reached. */
  ghost function Reached(dist: seq<Dist>): (r: set<int>)
    ensures forall x :: x in r <==> 0 <= x < |dist| && dist[x].Fin?
  {
    set x | 0 <= x < |dist| && dist[x].Fin?
  }

  /** Why the potentials are updated (the comment at line 24): after the
      update every residual edge out of a reached vertex still has a
      non-negative reduced cost and stays among the reached vertices, every
      tree edge has reduced cost zero, and the source keeps its potential. */
  lemma AdvanceKeepsFeasible(g: Graph, pi: seq<int>, s: int, live: set<int>,
                             dist: seq<Dist>, pv: seq<int>, pa: seq<int>, rank: seq<nat>)
    requires ShortestPathTree(g, pi, s, live, dist, pv, pa, rank)
    ensures Parents(g, s, dist, pv, pa, rank)
    ensures var pi2 := Advance(pi, dist);
      && Feasible(g, pi2, Reached(dist))
      && TreeTight(g, pi2, s, dist, pv, pa, rank)
      && pi2[s] == pi[s]
  {
    TreeParents(g, pi, s, live, dist, pv, pa, rank);
    var pi2 := Advance(pi, dist);
    var R := Reached(dist);
    forall u, k | u in R && HeadInRange(g, u, k) && Residual(g[u][k]) > 0
      ensures g[u][k].to in R && ReducedCost(g, pi2, u, k) >= 0
    {
      assert Relaxed(g, pi, dist, u);
    }
    forall v | 0 <= v < |g| && dist[v].Fin? && v != s
      ensures g[pv[v]][pa[v]].cost == pi2[v] - pi2[pv[v]]
    {
      assert pv[v] != -1;
      assert TreeEdge(g, pi, dist, pv, pa, v);
    }
  }

  /** Every residual edge has a non-negative cost: with all potentials zero,
      the first search is sound.  In a graph without flow only the forward
      edges of arcs with positive capacity are residual. */
  ghost predicate NonNegativeCosts(g: Graph)
  {
    forall u, k | IsPos(g, u, k) && Residual(g[u][k]) > 0 :: g[u][k].cost >= 0
  }

  lemma StartFeasible(g: Graph)
    requires WellFormed(g) && NonNegativeCosts(g)
    ensures Feasible(g, seq(|g|, _ => 0), VertexSet(|g|))
  {
    var pi := seq(|g|, _ => 0);
    forall u, k | u in VertexSet(|g|) && HeadInRange(g, u, k) && Residual(g[u][k]) > 0
      ensures g[u][k].to in VertexSet(|g|) && ReducedCost(g, pi, u, k) >= 0
    {
    }
  }

  /** `FlowSum(g[x])` is the net flow out of `x`. */
  ghost predicate FlowInvariant(g0: Graph, g: Graph, s: int, t: int, maxflow: int, mincost: int)
  {
    && WellFormed(g) && Balanced(g) && SameShape(g0, g) && 0 <= s < |g| && 0 <= t < |g| && s != t
    && maxflow == FlowSum(g[s])
    && FlowSum(g[t]) == -maxflow
    && (forall x | 0 <= x < |g| && x != s && x != t :: FlowSum(g[x]) == 0)
    && 2 * mincost == TotalCost(g)
  }

  lemma {:induction false} CapSumSame(a: seq<Edge>, b: seq<Edge>)
    requires |a| == |b| && forall i | 0 <= i < |a| :: a[i].cap == b[i].cap
    ensures CapSum(a) == CapSum(b)
    decreases |a|
  {
    if |a| > 0 {
      CapSumSame(a[..|a| - 1], b[..|b| - 1]);
    }
  }

  /** The residual capacity still leaving the source: never negative, and
      what each augmentation strictly lowers. */
  ghost function SourceRoom(g: Graph, s: int): int
    requires 0 <= s < |g|
  {
    CapSum(g[s]) - FlowSum(g[s])
  }

  lemma SourceRoomBounded(g: Graph, s: int)
    requires WellFormed(g) && 0 <= s < |g|
    ensures SourceRoom(g, s) >= 0
  {
    forall i | 0 <= i < |g[s]|
      ensures g[s][i].flow <= g[s][i].cap
    {
      assert EdgeOk(g, s, i);
    }
    FlowWithinCap(g[s]);
  }

  lemma AddCost(m: int, b: int, x: int)
    ensures 2 * (m + b * x) == 2 * m + 2 * b * x
  {
  }

  /** One augmentation by `b` units along a path of cost `pi2[t]` keeps the
      accounting and lowers the source's room by `b`. */
  lemma RoundKeeps(g0: Graph, g: Graph, h: Graph, pi2: seq<int>, s: int, t: int,
                   maxflow: int, mincost: int, b: int)
    requires FlowInvariant(g0, g, s, t, maxflow, mincost)
    requires WellFormed(h) && Balanced(h) && SameShape(g, h) && |pi2| == |g| && pi2[s] == 0 && b > 0
    requires forall x | 0 <= x < |g| ::
      FlowSum(h[x]) == FlowSum(g[x]) + (if x == s then b else 0) - (if x == t then b else 0)
    requires TotalCost(h) == TotalCost(g) + 2 * b * (pi2[t] - pi2[s])
    ensures FlowInvariant(g0, h, s, t, maxflow + b, mincost + b * pi2[t])
    ensures 0 <= SourceRoom(h, s) < SourceRoom(g, s)
  {
    AddCost(mincost, b, pi2[t]);
    CapSumSame(g[s], h[s]);
    SourceRoomBounded(h, s);
  }

  /** A search that missed the sink leaves the reached vertices closed under
      residual edges: they hold the source and not the sink. */
  lemma MissedSinkCut(g: Graph, pi: seq<int>, s: int, t: int, live: set<int>,
                      dist: seq<Dist>, pv: seq<int>, pa: seq<int>, rank: seq<nat>)
    requires WellFormed(g)
    requires ShortestPathTree(g, pi, s, live, dist, pv, pa, rank) && 0 <= t < |g| && dist[t].Inf?
    ensures s in Reached(dist) && t !in Reached(dist) && Closed(g, Reached(dist))
  {
    var R := Reached(dist);
    forall u, k | u in R && IsPos(g, u, k) && Residual(g[u][k]) > 0
      ensures g[u][k].to in R
    {
      assert Relaxed(g, pi, dist, u);
      assert HeadInRange(g, u, k) by {
        assert EdgeOk(g, u, k);
      }
    }
  }

  /** `executar(fonte, sorvedouro)` (lines 13-54), with a guard the C++ lacks
      for `fonte == sorvedouro`, where it answers `(0, 0)` instead of looping
      forever.  Each round searches for a cheapest augmenting path under the
      potentials, moves the potentials, and pushes the path's bottleneck;
      the loop ends when the sink is out of reach.  The result is a flow:
      within capacities, antisymmetric on each pair of edges, conserved at
      every vertex but the source and the sink, of value `maxflow`, with
      `mincost` the cost of the flow; and no augmenting path is left. */
  method Execute(g0: Graph, s: int, t: int) returns (maxflow: int, mincost: int, g: Graph)
    requires WellFormed(g0) && ZeroFlow(g0) && NonNegativeCosts(g0)
    requires 0 <= s < |g0| && 0 <= t < |g0|
    ensures WellFormed(g) && Balanced(g) && SameShape(g0, g)
    ensures maxflow == FlowSum(g[s]) && maxflow >= 0
    ensures forall x | 0 <= x < |g| && x != s && x != t :: FlowSum(g[x]) == 0
    ensures s != t ==> FlowSum(g[t]) == -maxflow
    ensures 2 * mincost == TotalCost(g)
    ensures s != t ==> exists R :: s in R && t !in R && Closed(g, R)
    ensures s == t ==> maxflow == 0 && mincost == 0 && g == g0
  {
    ZeroFlowSums(g0);
    ZeroBalanced(g0);
    if s == t {
      return 0, 0, g0;
    }
    StartFeasible(g0);
    g, maxflow, mincost := g0, 0, 0;
    var pi := seq(|g0|, _ => 0);
    ghost var live := VertexSet(|g0|);
    WellFormedHeads(g);
    var found, dist, pv, pa, rank := Search(g, pi, s, t, live);
    while found
      invariant FlowInvariant(g0, g, s, t, maxflow, mincost) && maxflow >= 0
      invariant |pi| == |g| && pi[s] == 0 && s in live && Feasible(g, pi, live)
      invariant ShortestPathTree(g, pi, s, live, dist, pv, pa, rank) && (found <==> dist[t].Fin?)
      decreases SourceRoom(g, s)
    {
      g, pi, live, maxflow, mincost := Round(g0, g, pi, s, t, live, dist, pv, pa, rank, maxflow, mincost);
      found, dist, pv, pa, rank := Search(g, pi, s, t, live);
    }
    MissedSinkCut(g, pi, s, t, live, dist, pv, pa, rank);
  }

  /** One round of lines 23-50 after a search that reached the sink: update
      the potentials, send the bottleneck along the path and add its cost. */
  method Round(g0: Graph, g: Graph, pi: seq<int>, s: int, t: int, ghost live: set<int>,
               dist: seq<Dist>, pv: seq<int>, pa: seq<int>, ghost rank: seq<nat>, maxflow: int, mincost: int)
    returns (h: Graph, pi2: seq<int>, ghost live2: set<int>, maxflow2: int, mincost2: int)
    requires FlowInvariant(g0, g, s, t, maxflow, mincost) && maxflow >= 0
    requires |pi| == |g| && pi[s] == 0 && s in live && Feasible(g, pi, live)
    requires ShortestPathTree(g, pi, s, live, dist, pv, pa, rank) && dist[t].Fin?
    ensures FlowInvariant(g0, h, s, t, maxflow2, mincost2) && maxflow2 > maxflow
    ensures |pi2| == |h| && pi2[s] == 0 && s in live2 && Feasible(h, pi2, live2) && HeadsInRange(h)
    ensures 0 <= SourceRoom(h, s) < SourceRoom(g, s)
  {
    AdvanceKeepsFeasible(g, pi, s, live, dist, pv, pa, rank);
    pi2 := Advance(pi, dist);
    var b := Bottleneck(g, s, t, dist, pv, pa, rank);
    PathBottleneckBounds(g, s, dist, pv, pa, rank, t);
    h := Push(g, pi2, Reached(dist), s, t, dist, pv, pa, rank, b.v);
    RoundKeeps(g0, g, h, pi2, s, t, maxflow, mincost, b.v);
    maxflow2 := maxflow + b.v;
    mincost2 := mincost + b.v * pi2[t];
    live2 := Reached(dist);
    WellFormedHeads(h);
  }

  /** As written, `executar(v, v)` never returns (`main` asks for it on a
      one-vertex instance, where the source `0` is the sink `n - 1`): every
      search reaches the sink, which is the source at distance 0, so the loop
      condition holds; the path to push is empty, so the bottleneck walk
      leaves the flow to send at its `INT_MAX` start and the push walk stops
      at once, leaving the graph as it was. */
  lemma SourceAsSinkNeverStops(g: Graph, pi: seq<int>, s: int, live: set<int>,
                               dist: seq<Dist>, pv: seq<int>, pa: seq<int>, rank: seq<nat>)
    requires ShortestPathTree(g, pi, s, live, dist, pv, pa, rank)
    ensures dist[s] == Fin(0)
    ensures Parents(g, s, dist, pv, pa, rank) && PathBottleneck(g, s, dist, pv, pa, rank, s) == Inf
  {
    TreeParents(g, pi, s, live, dist, pv, pa, rank);
  }

  /** How the search found each vertex after the first: `order[disc[j]]`
      owns the residual edge number `via[j]`, which leads to `order[j]`. */
  ghost predicate Discovered(g: Graph, order: seq<int>, disc: seq<int>, via: seq<int>)
  {
    && |disc| == |order| && |via| == |order|
    && forall j | 1 <= j < |order| ::
         && 0 <= disc[j] < j && IsPos(g, order[disc[j]], via[j])
         && g[order[disc[j]]][via[j]].to == order[j] && Residual(g[order[disc[j]]][via[j]]) > 0
  }

  /** A vertex found by the search lies in every closed set that holds the
      source. */
  lemma {:induction false} DiscoveredInClosed(g: Graph, order: seq<int>, disc: seq<int>, via: seq<int>,
                                              R: set<int>, j: int)
    requires Discovered(g, order, disc, via) && |order| > 0 && order[0] in R && Closed(g, R)
    requires 0 <= j < |order|
    ensures order[j] in R
    decreases j
  {
    if j > 0 {
      DiscoveredInClosed(g, order, disc, via, R, disc[j]);
    }
  }

  /** The number of vertices not yet visited. */
  ghost function Unvisited(vis: seq<bool>): nat
  {
    if |vis| == 0 then 0 else Unvisited(vis[..|vis| - 1]) + (if vis[|vis| - 1] then 0 else 1)
  }

  lemma {:induction false} VisitOne(vis: seq<bool>, x: int)
    requires 0 <= x < |vis| && !vis[x]
    ensures Unvisited(vis[x := true]) == Unvisited(vis) - 1
    decreases |vis|
  {
    var last := |vis| - 1;
    if x < last {
      assert vis[x := true][..last] == vis[..last][x := true];
      VisitOne(vis[..last], x);
    } else {
      assert vis[x := true][..last] == vis[..last];
    }
  }

  /** The indices whose flag is set, in increasing order: what `sort`
      makes of the visited vertices (line 131). */
  function Members(vis: seq<bool>): (r: seq<int>)
    ensures forall i, j | 0 <= i < j < |r| :: r[i] < r[j]
    ensures forall x :: x in r <==> 0 <= x < |vis| && vis[x]
    decreases |vis|
  {
    if |vis| == 0 then []
    else
      var m := Members(vis[..|vis| - 1]);
      assert forall i | 0 <= i < |m| :: m[i] < |vis| - 1 by {
        forall i | 0 <= i < |m|
          ensures m[i] < |vis| - 1
        {
          assert m[i] in m;
        }
      }
      m + (if vis[|vis| - 1] then [|vis| - 1] else [])
  }

  /** The breadth-first search state: `order` lists the visited vertices in
      the order they were marked, the processed ones (`out`) first; every
      residual edge out of a processed vertex leads to a visited one. */
  ghost predicate SearchState(g: Graph, s: int, visited: seq<bool>, out: seq<int>, queue: seq<int>,
                              order: seq<int>, disc: seq<int>, via: seq<int>)
  {
    && |visited| == |g| && order == out + queue && |order| > 0 && order[0] == s
    && (forall j | 0 <= j < |order| :: 0 <= order[j] < |g|)
    && (forall x | 0 <= x < |g| :: visited[x] <==> x in order)
    && Discovered(g, order, disc, via)
  }

  /** Lines 119-127: marks and queues every unvisited head of a residual
      edge out of `u`, the most recently processed vertex. */
  method VisitEdges(g: Graph, s: int, u: int, visited0: seq<bool>, out: seq<int>, queue0: seq<int>,
                    ghost order0: seq<int>, ghost disc0: seq<int>, ghost via0: seq<int>)
    returns (visited: seq<bool>, queue: seq<int>, ghost order: seq<int>, ghost disc: seq<int>, ghost via: seq<int>)
    requires HeadsInRange(g) && 0 <= u < |g| && |out| > 0 && out[|out| - 1] == u
    requires SearchState(g, s, visited0, out, queue0, order0, disc0, via0)
    ensures SearchState(g, s, visited, out, queue, order, disc, via)
    ensures forall x | 0 <= x < |g| && visited0[x] :: visited[x]
    ensures forall k | 0 <= k < |g[u]| && Residual(g[u][k]) > 0 :: 0 <= g[u][k].to < |g| && visited[g[u][k].to]
    ensures Unvisited(visited) <= Unvisited(visited0)
    ensures Unvisited(visited) < Unvisited(visited0) || queue == queue0
  {
    visited, queue, order, disc, via := visited0, queue0, order0, disc0, via0;
    var k := 0;
    while k < |g[u]|
      invariant 0 <= k <= |g[u]|
      invariant SearchState(g, s, visited, out, queue, order, disc, via)
      invariant forall x | 0 <= x < |g| && visited0[x] :: visited[x]
      invariant forall j | 0 <= j < k && Residual(g[u][j]) > 0 :: 0 <= g[u][j].to < |g| && visited[g[u][j].to]
      invariant Unvisited(visited) <= Unvisited(visited0)
      invariant Unvisited(visited) < Unvisited(visited0) || queue == queue0
    {
      visited, queue, order, disc, via := VisitEdge(g, s, u, k, visited, out, queue, order, disc, via);
      k := k + 1;
    }
  }

  /** One round of lines 120-126: the head of residual edge `g[u][k]` is
      marked and queued unless already visited. */
  method VisitEdge(g: Graph, s: int, u: int, k: int, visited0: seq<bool>, out: seq<int>, queue0: seq<int>,
                   ghost order0: seq<int>, ghost disc0: seq<int>, ghost via0: seq<int>)
    returns (visited: seq<bool>, queue: seq<int>, ghost order: seq<int>, ghost disc: seq<int>, ghost via: seq<int>)
    requires HeadsInRange(g) && 0 <= u < |g| && |out| > 0 && out[|out| - 1] == u && 0 <= k < |g[u]|
    requires SearchState(g, s, visited0, out, queue0, order0, disc0, via0)
    ensures SearchState(g, s, visited, out, queue, order, disc, via)
    ensures forall x | 0 <= x < |g| && visited0[x] :: visited[x]
    ensures Residual(g[u][k]) > 0 ==> 0 <= g[u][k].to < |g| && visited[g[u][k].to]
    ensures Unvisited(visited) <= Unvisited(visited0)
    ensures Unvisited(visited) < Unvisited(visited0) || queue == queue0
  {
    visited, queue, order, disc, via := visited0, queue0, order0, disc0, via0;
    var e := g[u][k];
    assert IsPos(g, u, k);
    if !visited[e.to] && Residual(e) > 0 {
      VisitOne(visited, e.to);
      visited := visited[e.to := true];
      queue := queue + [e.to];
      order := order + [e.to];
      disc := disc + [|out| - 1];
      via := via + [k];
    }
  }

  /** `obter_corte_minimo(fonte)` (lines 103-133): the vertices reachable
      from the source along residual edges, in increasing order.  The
      answer holds the source, no residual edge leaves it, and it lies
      inside every vertex set with those two properties: it is the least
      closed set around the source. */
  method MinCut(g: Graph, s: int) returns (cut: seq<int>)
    requires HeadsInRange(g) && 0 <= s < |g|
    ensures forall i, j | 0 <= i < j < |cut| :: cut[i] < cut[j]
    ensures forall x | x in cut :: 0 <= x < |g|
    ensures s in cut
    ensures Closed(g, set x | x in cut)
    ensures forall R: set<int> | s in R && Closed(g, R) :: forall x | x in cut :: x in R
  {
    var visited := seq(|g|, x => x == s);
    var queue := [s];
    var out: seq<int> := [];
    ghost var order, disc, via := [s], [0], [0];
    while |queue| > 0
      invariant SearchState(g, s, visited, out, queue, order, disc, via)
      invariant forall u, k | u in out && IsPos(g, u, k) && Residual(g[u][k]) > 0 :: visited[g[u][k].to]
      decreases Unvisited(visited), |queue|
    {
      var u := queue[0];
      assert order[|out|] == u;
      assert out + queue == (out + [u]) + queue[1..];
      queue := queue[1..];
      out := out + [u];
      visited, queue, order, disc, via := VisitEdges(g, s, u, visited, out, queue, order, disc, via);
    }
    cut := Members(visited);
    forall R: set<int> | s in R && Closed(g, R)
      ensures forall x | x in cut :: x in R
    {
      forall x | x in cut
        ensures x in R
      {
        var j :| 0 <= j < |order| && order[j] == x;
        DiscoveredInClosed(g, order, disc, via, R, j);
      }
    }
  }

  lemma AddEdgeKeepsNonNegative(g: Graph, from: int, to: int, cap: int, cost: int)
    requires 0 <= from < |g| && 0 <= to < |g| && NonNegativeCosts(g)
    requires cap > 0 ==> cost >= 0
    ensures NonNegativeCosts(AddEdge(g, from, to, cap, cost))
  {
    var r := AddEdge(g, from, to, cap, cost);
    forall u, k | IsPos(r, u, k) && Residual(r[u][k]) > 0
      ensures r[u][k].cost >= 0
    {
      if IsPos(g, u, k) {
        assert r[u][k] == g[u][k];
      }
    }
  }

  /** Arcs whose positive capacities come with non-negative costs give a
      graph whose residual edges all have non-negative costs. */
  lemma {:induction false} BuildNonNegative(n: nat, arcs: seq<Arc>)
    requires ArcsInRange(n, arcs)
    requires forall k | 0 <= k < |arcs| :: arcs[k].cap > 0 ==> arcs[k].cost >= 0
    ensures NonNegativeCosts(Build(n, arcs))
    decreases |arcs|
  {
    if |arcs| > 0 {
      var a := arcs[|arcs| - 1];
      var prefix := arcs[..|arcs| - 1];
      assert ArcsInRange(n, prefix);
      BuildNonNegative(n, prefix);
      AddEdgeKeepsNonNegative(Build(n, prefix), a.from, a.to, a.cap, a.cost);
    }
  }


  /** The computation of `main` (lines 27-61): builds the graph from the
      arcs, runs the engine from vertex `0` to vertex `n - 1`, and reads the
      minimum cut off the final residual graph; `g` is the graph afterwards.
      The flow is conserved at every inner vertex and the sink absorbs it
      all; the cut is the least residual-closed set holding the source, and
      the sink is never on it.  The flow value is the capacity of the arcs
      leaving the cut, no set holding the source and not the sink has a
      smaller one, and no flow of the arcs is worth more. */
  method Solve(n: nat, arcs: seq<Arc>) returns (maxflow: int, mincost: int, cut: seq<int>, g: Graph)
    requires n > 0 && ArcsInRange(n, arcs)
    requires forall k | 0 <= k < |arcs| :: arcs[k].cap >= 0 && (arcs[k].cap > 0 ==> arcs[k].cost >= 0)
    ensures |g| == n && WellFormed(g) && SameShape(Build(n, arcs), g)
    ensures maxflow == FlowSum(g[0]) && maxflow >= 0 && 2 * mincost == TotalCost(g)
    ensures forall x | 0 < x < n - 1 :: FlowSum(g[x]) == 0
    ensures n > 1 ==> FlowSum(g[n - 1]) == -maxflow
    ensures forall i, j | 0 <= i < j < |cut| :: cut[i] < cut[j]
    ensures 0 in cut && forall x | x in cut :: 0 <= x < n
    ensures Closed(g, set x | x in cut)
    ensures forall R: set<int> | 0 in R && Closed(g, R) :: forall x | x in cut :: x in R
    ensures n > 1 ==> n - 1 !in cut
    ensures n > 1 ==> maxflow == ArcCut(arcs, set x | x in cut)
    ensures n > 1 ==> forall R: set<int> | 0 in R && n - 1 !in R :: ArcCut(arcs, set x | x in cut) <= ArcCut(arcs, R)
    ensures forall f | ArcFlow(n, arcs, f, 0, n - 1) :: NetOut(arcs, f, 0) <= maxflow
  {
    var g0 := Build(n, arcs);
    BuildWellFormed(n, arcs);
    BuildNonNegative(n, arcs);
    maxflow, mincost, g := Execute(g0, 0, n - 1);
    WellFormedHeads(g);
    cut := MinCut(g, 0);
    if n > 1 {
      SinkOffCut(g, cut, n - 1);
      MaxFlowMinCut(n, arcs, g, set x | x in cut);
    } else {
      forall f | ArcFlow(n, arcs, f, 0, n - 1)
        ensures NetOut(arcs, f, 0) <= maxflow
      {
        SingleVertexNet(arcs, f);
      }
    }
  }

  /** The max-flow min-cut conclusion for the final graph: the flow value
      is the capacity of the arcs leaving the residual-closed set `C`, no set
      separating the source from the sink has a smaller capacity, and no
      flow of the arcs is worth more. */
  lemma MaxFlowMinCut(n: nat, arcs: seq<Arc>, g: Graph, C: set<int>)
    requires n > 1 && ArcsInRange(n, arcs) && |g| == n
    requires WellFormed(g) && Balanced(g) && SameShape(Build(n, arcs), g)
    requires forall x | 0 < x < n - 1 :: FlowSum(g[x]) == 0
    requires 0 in C && n - 1 !in C && Closed(g, C)
    ensures FlowSum(g[0]) == ArcCut(arcs, C)
    ensures forall R: set<int> | 0 in R && n - 1 !in R :: ArcCut(arcs, C) <= ArcCut(arcs, R)
    ensures forall f | ArcFlow(n, arcs, f, 0, n - 1) :: NetOut(arcs, f, 0) <= FlowSum(g[0])
  {
    CutEqualsFlow(g, C, 0, n - 1);
    CutCapSameShape(Build(n, arcs), g, C);
    BuildCutCap(n, arcs, C);
    forall R: set<int> | 0 in R && n - 1 !in R
      ensures ArcCut(arcs, C) <= ArcCut(arcs, R)
    {
      FlowBelowCut(g, R, 0, n - 1);
      CutCapSameShape(Build(n, arcs), g, R);
      BuildCutCap(n, arcs, R);
    }
    forall f | ArcFlow(n, arcs, f, 0, n - 1)
      ensures NetOut(arcs, f, 0) <= FlowSum(g[0])
    {
      ArcFlowBelowCut(n, arcs, f, 0, n - 1, C);
    }
  }

  /** A vertex kept out of some closed set containing the source is not on
      the least one. */
  lemma SinkOffCut(g: Graph, cut: seq<int>, t: int)
    requires exists R :: 0 in R && t !in R && Closed(g, R)
    requires forall R: set<int> | 0 in R && Closed(g, R) :: forall x | x in cut :: x in R
    ensures t !in cut
  {
    var R :| 0 in R && t !in R && Closed(g, R);
    assert forall x | x in cut :: x in R;
  }
}
