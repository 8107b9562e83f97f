/** `DirectedGraph::bellmanFord(source)` (LAB_02): `numVertices` passes over
    the edge list, each relaxing every edge whose source has a finite
    distance.  `INF` (`INT_MAX / 2`) is the explicit `Inf`.

    What the passes compute: every finite entry is the weight of some walk
    from the source (soundness), and no walk of at most `numVertices` edges
    is lighter than its end's entry (completeness for short walks). */
module BellmanFord {
  import opened Dist
  import opened WeightedDigraph

  /** `a <= b` with `Inf` above every finite value. */
  predicate AtMost(a: Dist, b: Dist)
  {
    !Less(b, a)
  }

  /** Every finite entry is the weight of its witness walk from `source`. */
  ghost predicate Witnessed(edges: seq<WEdge>, source: int, dist: seq<Dist>, wit: seq<seq<int>>)
  {
    && |wit| == |dist|
    && forall v | 0 <= v < |dist| && dist[v].Fin? ::
         EdgeWalk(edges, source, wit[v], v) && WalkWeight(edges, wit[v]) == dist[v].v
  }

  /** No walk of at most `len` edges from `source` weighs less than the
      entry of its end, which is therefore finite. */
  ghost predicate BoundsWalks(edges: seq<WEdge>, source: int, dist: seq<Dist>, len: int)
  {
    forall p, v | EdgeWalk(edges, source, p, v) && |p| <= len ::
      0 <= v < |dist| && dist[v].Fin? && dist[v].v <= WalkWeight(edges, p)
  }

  /** The same for the walks of `len` edges whose last edge comes before
      index `j`: those the current pass has already covered. */
  ghost predicate BoundsWalksBefore(edges: seq<WEdge>, source: int, dist: seq<Dist>, len: int, j: int)
  {
    forall p, v | EdgeWalk(edges, source, p, v) && |p| == len && len > 0 && p[len - 1] < j ::
      0 <= v < |dist| && dist[v].Fin? && dist[v].v <= WalkWeight(edges, p)
  }

  /** The pass invariant; `dist[source]` never rises above its initial 0. */
  ghost predicate PassInv(g: Digraph, source: int, dist: seq<Dist>, wit: seq<seq<int>>, i: int, j: int)
  {
    && |dist| == g.n + 1 && 0 <= source < g.n && 0 <= i && 0 <= j <= |g.edges|
    && dist[source].Fin? && dist[source].v <= 0
    && Witnessed(g.edges, source, dist, wit)
    && BoundsWalks(g.edges, source, dist, i)
    && BoundsWalksBefore(g.edges, source, dist, i + 1, j)
  }

  /** Lowering entries keeps every bound. */
  lemma LowerKeepsBounds(edges: seq<WEdge>, source: int, dist: seq<Dist>, dist': seq<Dist>, len: int, j: int)
    requires len >= 0
    requires |dist'| == |dist| && forall v | 0 <= v < |dist| :: AtMost(dist'[v], dist[v])
    requires BoundsWalks(edges, source, dist, len)
    requires BoundsWalksBefore(edges, source, dist, len + 1, j)
    ensures BoundsWalks(edges, source, dist', len)
    ensures BoundsWalksBefore(edges, source, dist', len + 1, j)
  {
    forall p, v | EdgeWalk(edges, source, p, v) && |p| <= len
      ensures 0 <= v < |dist'| && dist'[v].Fin? && dist'[v].v <= WalkWeight(edges, p)
    {
      assert 0 <= v < |dist|;
      assert AtMost(dist'[v], dist[v]);
    }
    forall p, v | EdgeWalk(edges, source, p, v) && |p| == len + 1 && p[len] < j
      ensures 0 <= v < |dist'| && dist'[v].Fin? && dist'[v].v <= WalkWeight(edges, p)
    {
      assert 0 <= v < |dist|;
      assert AtMost(dist'[v], dist[v]);
    }
  }

  /** After edge `j` has been looked at, its target is no heavier than its
      source's entry before the look plus its weight; so the walks of
      `i + 1` edges ending with edge `j` are covered.  (With a self-loop the
      source's entry may itself have dropped in that look.) */
  lemma CoverEdge(g: Digraph, source: int, dist: seq<Dist>, dist': seq<Dist>, i: int, j: int)
    requires Valid(g) && |dist| == g.n + 1 && |dist'| == g.n + 1 && 0 <= j < |g.edges| && i >= 0
    requires BoundsWalks(g.edges, source, dist, i)
    requires BoundsWalksBefore(g.edges, source, dist', i + 1, j)
    requires var e := g.edges[j];
      dist[e.source].Fin? ==> AtMost(dist'[e.target], Fin(dist[e.source].v + e.weight))
    ensures BoundsWalksBefore(g.edges, source, dist', i + 1, j + 1)
  {
    var e := g.edges[j];
    forall p, v | EdgeWalk(g.edges, source, p, v) && |p| == i + 1 && i + 1 > 0 && p[i] < j + 1
      ensures 0 <= v < |dist'| && dist'[v].Fin? && dist'[v].v <= WalkWeight(g.edges, p)
    {
      if p[i] == j {
        var q := p[..i];
        assert EdgeWalk(g.edges, source, q, e.source);
        assert |q| <= i;
        assert AtMost(dist'[e.target], Fin(dist[e.source].v + e.weight));
      }
    }
  }

  /** One look at edge `j` (lines 76-78) keeps the pass invariant. */
  lemma RelaxStep(g: Digraph, source: int, dist: seq<Dist>, wit: seq<seq<int>>, i: int, j: int,
                  dist': seq<Dist>, wit': seq<seq<int>>)
    requires Valid(g) && PassInv(g, source, dist, wit, i, j) && j < |g.edges|
    requires var e := g.edges[j];
      if dist[e.source].Fin? && Less(Fin(dist[e.source].v + e.weight), dist[e.target]) then
        dist' == dist[e.target := Fin(dist[e.source].v + e.weight)] && wit' == wit[e.target := wit[e.source] + [j]]
      else
        dist' == dist && wit' == wit
    ensures PassInv(g, source, dist', wit', i, j + 1)
  {
    var e := g.edges[j];
    if dist[e.source].Fin? && Less(Fin(dist[e.source].v + e.weight), dist[e.target]) {
      var p := wit[e.source] + [j];
      assert p[..|p| - 1] == wit[e.source];
      assert EdgeWalk(g.edges, source, p, e.target);
      assert WalkWeight(g.edges, p) == dist'[e.target].v;
      LowerKeepsBounds(g.edges, source, dist, dist', i, j);
    }
    CoverEdge(g, source, dist, dist', i, j);
  }

  /** `bellmanFord(source)` (lines 68-83): `numVertices + 1` entries, the
      source's at most 0; each finite entry is the weight of a walk from the
      source; and no walk of at most `numVertices` edges is lighter than its
      end's entry.  So, without negative cycles, the entries are the
      shortest distances, and `Inf` marks exactly the unreachable vertices. */
  method BellmanFord(g: Digraph, source: int) returns (dist: seq<Dist>, ghost wit: seq<seq<int>>)
    requires Valid(g) && 0 <= source < g.n
    ensures |dist| == g.n + 1
    ensures dist[source].Fin? && dist[source].v <= 0
    ensures Witnessed(g.edges, source, dist, wit)
    ensures BoundsWalks(g.edges, source, dist, g.n)
  {
    dist := seq(g.n + 1, _ => Inf)[source := Fin(0)];
    wit := seq(g.n + 1, _ => []);
    var i := 0;
    while i < g.n
      invariant 0 <= i <= g.n
      invariant PassInv(g, source, dist, wit, i, 0)
    {
      var j := 0;
      while j < |g.edges|
        invariant PassInv(g, source, dist, wit, i, j)
      {
        var e := g.edges[j];
        var dist', wit' := dist, wit;
        if dist[e.source].Fin? && Less(Fin(dist[e.source].v + e.weight), dist[e.target]) {
          dist' := dist[e.target := Fin(dist[e.source].v + e.weight)];
          wit' := wit[e.target := wit[e.source] + [j]];
        }
        RelaxStep(g, source, dist, wit, i, j, dist', wit');
        dist, wit := dist', wit';
        j := j + 1;
      }
      PassDone(g, source, dist, wit, i);
      i := i + 1;
    }
  }

  lemma PassDone(g: Digraph, source: int, dist: seq<Dist>, wit: seq<seq<int>>, i: int)
    requires PassInv(g, source, dist, wit, i, |g.edges|)
    ensures PassInv(g, source, dist, wit, i + 1, 0)
  {
    forall p, v | EdgeWalk(g.edges, source, p, v) && |p| <= i + 1
      ensures 0 <= v < |dist| && dist[v].Fin? && dist[v].v <= WalkWeight(g.edges, p)
    {
      if |p| == i + 1 {
        assert p[i] < |g.edges|;
      }
    }
  }
}
