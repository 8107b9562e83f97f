/** The shortest-path step of the min-cost flow engine (`dijkstra` in
    `FluxoCustoMinimo`): Dijkstra's algorithm over the residual graph, where
    an edge `u -> v` may be used only while it has residual capacity and
    weighs its reduced cost `cost + pi(u) - pi(v)`.

    The priority queue is a multiset of entries `(distance, vertex)` from
    which a minimal entry is popped; an entry whose distance is larger than
    the vertex's current distance is stale and skipped.  Distances, parent
    vertices and parent edge indices are fresh on every call.
 */
module PotentialSearch {
  import opened Dist
  import opened ResidualGraph

  /** A priority-queue entry `{distance, vertex}`. */
  datatype Entry = Entry(d: int, v: int)

  predicate HeadInRange(g: Graph, u: int, i: int)
  {
    IsPos(g, u, i) && 0 <= g[u][i].to < |g|
  }

  /** `custo + potencial[u] - potencial[para]` of the edge at `g[u][i]`. */
  function ReducedCost(g: Graph, pi: seq<int>, u: int, i: int): int
    requires HeadInRange(g, u, i) && |pi| == |g|
  {
    g[u][i].cost + pi[u] - pi[g[u][i].to]
  }

  /** The potentials fit the part `live` of the graph: a residual edge that
      leaves a live vertex ends in a live vertex and has a non-negative
      reduced cost.  This is what makes plain Dijkstra sound. */
  ghost predicate Feasible(g: Graph, pi: seq<int>, live: set<int>)
    requires |pi| == |g|
  {
    forall u, i | u in live && HeadInRange(g, u, i) && Residual(g[u][i]) > 0 ::
      g[u][i].to in live && ReducedCost(g, pi, u, i) >= 0
  }

  predicate Sized(g: Graph, pi: seq<int>, dist: seq<Dist>, pv: seq<int>, pa: seq<int>)
  {
    |pi| == |g| && |dist| == |g| && |pv| == |g| && |pa| == |g|
  }

  /** The residual edges among the first `k` edges of a reached vertex `u`
      cannot shorten the distance of their heads. */
  ghost predicate RelaxedUpTo(g: Graph, pi: seq<int>, dist: seq<Dist>, u: int, k: int)
    requires |pi| == |g| && |dist| == |g| && 0 <= u < |g|
  {
    dist[u].Fin? ==>
      forall j | 0 <= j < k && HeadInRange(g, u, j) && Residual(g[u][j]) > 0 ::
        dist[g[u][j].to].Fin? && dist[g[u][j].to].v <= dist[u].v + ReducedCost(g, pi, u, j)
  }

  ghost predicate Relaxed(g: Graph, pi: seq<int>, dist: seq<Dist>, u: int)
    requires |pi| == |g| && |dist| == |g| && 0 <= u < |g|
  {
    RelaxedUpTo(g, pi, dist, u, |g[u]|)
  }

  /** `g[pv[v]][pa[v]]` is a residual edge into `v` whose reduced cost
      accounts exactly for the step from the parent's distance to `v`'s. */
  ghost predicate TreeEdge(g: Graph, pi: seq<int>, dist: seq<Dist>, pv: seq<int>, pa: seq<int>, v: int)
    requires Sized(g, pi, dist, pv, pa) && 0 <= v < |g|
  {
    var p := pv[v];
    && 0 <= p < |g|
    && HeadInRange(g, p, pa[v])
    && g[p][pa[v]].to == v
    && Residual(g[p][pa[v]]) > 0
    && dist[p].Fin?
    && dist[v] == Fin(dist[p].v + ReducedCost(g, pi, p, pa[v]))
  }

  /** What one search leaves behind: the source at distance 0 without a
      parent; every reached vertex live and at a non-negative distance;
      exactly the reached vertices other than the source have a parent, via
      a tight residual edge from a vertex of smaller `rank` (so following
      parents always ends at the source); and no residual edge out of a
      reached vertex can improve any distance. */
  ghost predicate ShortestPathTree(g: Graph, pi: seq<int>, s: int, live: set<int>,
                                   dist: seq<Dist>, pv: seq<int>, pa: seq<int>, rank: seq<nat>)
  {
    && Sized(g, pi, dist, pv, pa) && |rank| == |g| && 0 <= s < |g|
    && dist[s] == Fin(0) && pv[s] == -1
    && (forall v | 0 <= v < |g| && dist[v].Fin? :: v in live && dist[v].v >= 0)
    && (forall v | 0 <= v < |g| :: pv[v] != -1 <==> v != s && dist[v].Fin?)
    && (forall v | 0 <= v < |g| && pv[v] != -1 ::
          TreeEdge(g, pi, dist, pv, pa, v) && rank[pv[v]] < rank[v])
    && (forall u | 0 <= u < |g| :: Relaxed(g, pi, dist, u))
  }

  ghost predicate SearchShape(g: Graph, pi: seq<int>, s: int, dist: seq<Dist>, pv: seq<int>, pa: seq<int>,
                              settled: set<int>, rank: seq<nat>)
  {
    && Sized(g, pi, dist, pv, pa) && |rank| == |g| && 0 <= s < |g|
    && (forall x | x in settled :: 0 <= x < |g|)
    && dist[s] == Fin(0) && pv[s] == -1
  }

  /** Reached vertices are live, at a non-negative distance, and have a
      parent exactly when they are not the source. */
  ghost predicate ReachedOk(g: Graph, s: int, live: set<int>, dist: seq<Dist>, pv: seq<int>)
    requires |dist| == |g| && |pv| == |g|
  {
    && (forall v | 0 <= v < |g| && dist[v].Fin? :: v in live && dist[v].v >= 0)
    && (forall v | 0 <= v < |g| :: pv[v] != -1 <==> v != s && dist[v].Fin?)
  }

  /** Parent edges are tight and come from settled vertices of smaller rank. */
  ghost predicate TreeOk(g: Graph, pi: seq<int>, dist: seq<Dist>, pv: seq<int>, pa: seq<int>,
                         settled: set<int>, rank: seq<nat>)
    requires Sized(g, pi, dist, pv, pa) && |rank| == |g|
  {
    forall v | 0 <= v < |g| && pv[v] != -1 ::
      TreeEdge(g, pi, dist, pv, pa, v) && pv[v] in settled &&
      (v in settled ==> rank[pv[v]] < rank[v])
  }

  /** Every queue entry names a reached vertex, is not below its distance
      and not below the floor (the distance of the last popped entry). */
  ghost predicate QueueOk(g: Graph, dist: seq<Dist>, queue: multiset<Entry>, floor: int)
    requires |dist| == |g|
  {
    forall e | e in queue :: 0 <= e.v < |g| && dist[e.v].Fin? && dist[e.v].v <= e.d && floor <= e.d
  }

  /** Settled vertices are reached, not above the floor, have no live queue
      entry left, and carry a rank below the number of settled vertices. */
  ghost predicate SettledOk(g: Graph, dist: seq<Dist>, queue: multiset<Entry>, settled: set<int>,
                            rank: seq<nat>, floor: int)
    requires |dist| == |g| && |rank| == |g|
  {
    forall x | x in settled ::
      0 <= x < |g| && dist[x].Fin? && dist[x].v <= floor &&
      Entry(dist[x].v, x) !in queue && rank[x] < |settled|
  }

  /** A reached vertex is settled or waits in the queue at its distance,
      and at most once. */
  ghost predicate PendingOk(g: Graph, dist: seq<Dist>, queue: multiset<Entry>, settled: set<int>)
    requires |dist| == |g|
  {
    && (forall x | 0 <= x < |g| && dist[x].Fin? :: x in settled || Entry(dist[x].v, x) in queue)
    && (forall x | 0 <= x < |g| && dist[x].Fin? :: queue[Entry(dist[x].v, x)] <= 1)
  }

  /** The loop invariant of the search, apart from relaxation. */
  ghost predicate Core(g: Graph, pi: seq<int>, s: int, live: set<int>,
                       dist: seq<Dist>, pv: seq<int>, pa: seq<int>, queue: multiset<Entry>,
                       settled: set<int>, rank: seq<nat>, floor: int)
  {
    && SearchShape(g, pi, s, dist, pv, pa, settled, rank)
    && ReachedOk(g, s, live, dist, pv)
    && TreeOk(g, pi, dist, pv, pa, settled, rank)
    && QueueOk(g, dist, queue, floor)
    && SettledOk(g, dist, queue, settled, rank, floor)
    && PendingOk(g, dist, queue, settled)
  }

  /** The vertices `0 .. n-1`. */
  ghost function VertexSet(n: nat): (r: set<int>)
    ensures forall x :: x in r <==> 0 <= x < n
  {
    if n == 0 then {} else VertexSet(n - 1) + {n - 1}
  }

  predicate IsMin(m: Entry, q: multiset<Entry>)
  {
    forall e | e in q :: m.d <= e.d
  }

  /** A non-empty queue has an entry of least distance. */
  lemma {:induction false} MinExists(q: multiset<Entry>)
    requires q != multiset{}
    ensures exists m :: m in q && IsMin(m, q)
    decreases |q|
  {
    var x :| x in q;
    var rest := q - multiset{x};
    assert q == rest + multiset{x};
    if rest == multiset{} {
      assert q == multiset{x};
      assert x in q && IsMin(x, q);
    } else {
      MinExists(rest);
      var m :| m in rest && IsMin(m, rest);
      var best := if m.d <= x.d then m else x;
      forall e | e in q
        ensures best.d <= e.d
      {
        assert e in rest || e == x;
      }
      assert best in q && IsMin(best, q);
    }
  }

  /** The invariant of the inner loop after the first `i` edges of `u`. */
  ghost predicate ScanInv(g: Graph, pi: seq<int>, s: int, live: set<int>, u: int, i: int,
                          dist: seq<Dist>, pv: seq<int>, pa: seq<int>, queue: multiset<Entry>,
                          settled: set<int>, rank: seq<nat>, floor: int)
  {
    && 0 <= u < |g| && 0 <= i <= |g[u]|
    && Core(g, pi, s, live, dist, pv, pa, queue, settled, rank, floor)
    && u in settled && dist[u] == Fin(floor)
    && (forall x | x in settled && 0 <= x < |g| && x != u :: Relaxed(g, pi, dist, x))
    && RelaxedUpTo(g, pi, dist, u, i)
  }

  lemma ScanDone(g: Graph, pi: seq<int>, s: int, live: set<int>, u: int,
                 dist: seq<Dist>, pv: seq<int>, pa: seq<int>, queue: multiset<Entry>,
                 settled: set<int>, rank: seq<nat>, floor: int)
    requires 0 <= u < |g|
    requires ScanInv(g, pi, s, live, u, |g[u]|, dist, pv, pa, queue, settled, rank, floor)
    ensures Core(g, pi, s, live, dist, pv, pa, queue, settled, rank, floor)
    ensures forall x | x in settled && 0 <= x < |g| :: Relaxed(g, pi, dist, x)
  {
  }

  lemma EdgeAt(g: Graph, u: int, i: int)
    requires HeadsInRange(g) && IsPos(g, u, i)
    ensures 0 <= g[u][i].to < |g|
  {
  }

  /** The labels the search maintains: distances, parent vertices, parent
      edge indices and the priority queue. */
  datatype Labels = Labels(dist: seq<Dist>, pv: seq<int>, pa: seq<int>, queue: multiset<Entry>)

  /** The labels after `u`, at distance `dist[u]`, improves the head of
      its edge `g[u][i]`: new distance, parent `u` via edge `i`, and a new
      queue entry. */
  function Improve(g: Graph, pi: seq<int>, u: int, i: int, l: Labels): (r: Labels)
    requires HeadInRange(g, u, i) && Sized(g, pi, l.dist, l.pv, l.pa) && l.dist[u].Fin?
    ensures Sized(g, pi, r.dist, r.pv, r.pa)
  {
    var v := g[u][i].to;
    var nd := l.dist[u].v + ReducedCost(g, pi, u, i);
    Labels(l.dist[v := Fin(nd)], l.pv[v := u], l.pa[v := i], l.queue + multiset{Entry(nd, v)})
  }

  lemma ScanRelax(g: Graph, pi: seq<int>, s: int, live: set<int>, u: int, i: int, l: Labels,
                  settled: set<int>, rank: seq<nat>, floor: int)
    requires |pi| == |g| && Feasible(g, pi, live)
    requires 0 <= u < |g| && 0 <= i < |g[u]| && HeadInRange(g, u, i)
    requires Sized(g, pi, l.dist, l.pv, l.pa) && l.dist[u] == Fin(floor)
    requires ScanInv(g, pi, s, live, u, i, l.dist, l.pv, l.pa, l.queue, settled, rank, floor)
    requires Residual(g[u][i]) > 0
    requires Less(Fin(l.dist[u].v + ReducedCost(g, pi, u, i)), l.dist[g[u][i].to])
    ensures var r := Improve(g, pi, u, i, l);
      && ScanInv(g, pi, s, live, u, i + 1, r.dist, r.pv, r.pa, r.queue, settled, rank, floor)
      && r.dist[u] == Fin(floor)
  {
    var r := Improve(g, pi, u, i, l);
    assert RelaxStep(g, pi, u, i, floor, l.dist, l.pv, l.pa, l.queue, r.dist, r.pv, r.pa, r.queue);
    Relax(g, pi, s, live, u, i, l.dist, l.pv, l.pa, l.queue, settled, rank, floor,
          r.dist, r.pv, r.pa, r.queue);
  }

  lemma ScanSkip(g: Graph, pi: seq<int>, s: int, live: set<int>, u: int, i: int, l: Labels,
                 settled: set<int>, rank: seq<nat>, floor: int)
    requires |pi| == |g| && 0 <= u < |g| && 0 <= i < |g[u]| && HeadInRange(g, u, i)
    requires Sized(g, pi, l.dist, l.pv, l.pa) && l.dist[u] == Fin(floor)
    requires ScanInv(g, pi, s, live, u, i, l.dist, l.pv, l.pa, l.queue, settled, rank, floor)
    requires !(Residual(g[u][i]) > 0 &&
               Less(Fin(l.dist[u].v + ReducedCost(g, pi, u, i)), l.dist[g[u][i].to]))
    ensures ScanInv(g, pi, s, live, u, i + 1, l.dist, l.pv, l.pa, l.queue, settled, rank, floor)
  {
    SkipEdge(g, pi, l.dist, u, i);
  }

  /** The inner loop of `dijkstra`: relaxes every residual edge of the vertex
      `u` just taken from the queue, whose distance is the current floor. */
  method ScanEdges(g: Graph, pi: seq<int>, s: int, ghost live: set<int>, u: int, l0: Labels,
                   ghost settled: set<int>, ghost rank: seq<nat>, ghost floor: int)
    returns (l: Labels)
    requires HeadsInRange(g) && |pi| == |g| && Feasible(g, pi, live)
    requires 0 <= u < |g|
    requires ScanInv(g, pi, s, live, u, 0, l0.dist, l0.pv, l0.pa, l0.queue, settled, rank, floor)
    requires Sized(g, pi, l0.dist, l0.pv, l0.pa) && l0.dist[u] == Fin(floor)
    ensures Core(g, pi, s, live, l.dist, l.pv, l.pa, l.queue, settled, rank, floor)
    ensures forall x | x in settled && 0 <= x < |g| :: Relaxed(g, pi, l.dist, x)
  {
    l := l0;
    var i := 0;
    while i < |g[u]|
      invariant 0 <= i <= |g[u]|
      invariant ScanInv(g, pi, s, live, u, i, l.dist, l.pv, l.pa, l.queue, settled, rank, floor)
      invariant Sized(g, pi, l.dist, l.pv, l.pa) && l.dist[u] == Fin(floor)
    {
      var e := g[u][i];
      EdgeAt(g, u, i);
      if Residual(e) > 0 && Less(Fin(l.dist[u].v + (e.cost + pi[u] - pi[e.to])), l.dist[e.to]) {
        ScanRelax(g, pi, s, live, u, i, l, settled, rank, floor);
        l := Improve(g, pi, u, i, l);
      } else {
        ScanSkip(g, pi, s, live, u, i, l, settled, rank, floor);
      }
      i := i + 1;
    }
    ScanDone(g, pi, s, live, u, l.dist, l.pv, l.pa, l.queue, settled, rank, floor);
  }

  /** An edge that is not relaxed already satisfies the relaxation bound. */
  lemma SkipEdge(g: Graph, pi: seq<int>, dist: seq<Dist>, u: int, i: int)
    requires |pi| == |g| && |dist| == |g| && 0 <= u < |g| && HeadInRange(g, u, i)
    requires dist[u].Fin? && RelaxedUpTo(g, pi, dist, u, i)
    requires !(Residual(g[u][i]) > 0 && Less(Fin(dist[u].v + ReducedCost(g, pi, u, i)), dist[g[u][i].to]))
    ensures RelaxedUpTo(g, pi, dist, u, i + 1)
  {
  }

  /** `dist'`, `pv'`, `pa'` and `queue'` are the state after relaxing the
      residual edge `g[u][i]` from `u`, which sits at distance `floor`. */
  ghost predicate RelaxStep(g: Graph, pi: seq<int>, u: int, i: int, floor: int,
                            dist: seq<Dist>, pv: seq<int>, pa: seq<int>, queue: multiset<Entry>,
                            dist': seq<Dist>, pv': seq<int>, pa': seq<int>, queue': multiset<Entry>)
  {
    && Sized(g, pi, dist, pv, pa)
    && HeadInRange(g, u, i) && Residual(g[u][i]) > 0
    && dist[u] == Fin(floor)
    && var v := g[u][i].to;
       var nd := floor + ReducedCost(g, pi, u, i);
       && Less(Fin(nd), dist[v])
       && dist' == dist[v := Fin(nd)]
       && pv' == pv[v := u] && pa' == pa[v := i]
       && queue' == queue + multiset{Entry(nd, v)}
  }

  /** The relaxed head is a fresh vertex: not settled, not the source, not
      `u`, reached at a non-negative distance, and not yet queued at it. */
  lemma RelaxFacts(g: Graph, pi: seq<int>, s: int, live: set<int>, u: int, i: int,
                   dist: seq<Dist>, pv: seq<int>, pa: seq<int>, queue: multiset<Entry>,
                   settled: set<int>, rank: seq<nat>, floor: int,
                   dist': seq<Dist>, pv': seq<int>, pa': seq<int>, queue': multiset<Entry>)
    requires |pi| == |g| && Feasible(g, pi, live)
    requires Core(g, pi, s, live, dist, pv, pa, queue, settled, rank, floor)
    requires 0 <= u < |g|
    requires RelaxStep(g, pi, u, i, floor, dist, pv, pa, queue, dist', pv', pa', queue')
    ensures ReducedCost(g, pi, u, i) >= 0 && floor >= 0
    ensures g[u][i].to !in settled && g[u][i].to != s && g[u][i].to != u && g[u][i].to in live
    ensures Entry(floor + ReducedCost(g, pi, u, i), g[u][i].to) !in queue
  {
    var v := g[u][i].to;
    assert u in live;
    var nd := floor + ReducedCost(g, pi, u, i);
  }

  lemma RelaxTree(g: Graph, pi: seq<int>, u: int, i: int,
                  dist: seq<Dist>, pv: seq<int>, pa: seq<int>, queue: multiset<Entry>,
                  settled: set<int>, rank: seq<nat>, floor: int,
                  dist': seq<Dist>, pv': seq<int>, pa': seq<int>, queue': multiset<Entry>)
    requires |rank| == |g| && 0 <= u < |g| && u in settled
    requires RelaxStep(g, pi, u, i, floor, dist, pv, pa, queue, dist', pv', pa', queue')
    requires TreeOk(g, pi, dist, pv, pa, settled, rank)
    requires g[u][i].to !in settled
    ensures TreeOk(g, pi, dist', pv', pa', settled, rank)
  {
    var v := g[u][i].to;
    forall w | 0 <= w < |g| && pv'[w] != -1
      ensures TreeEdge(g, pi, dist', pv', pa', w) && pv'[w] in settled &&
              (w in settled ==> rank[pv'[w]] < rank[w])
    {
      if w != v {
        assert TreeEdge(g, pi, dist, pv, pa, w);
        assert pv[w] in settled;
      }
    }
  }

  lemma RelaxQueue(g: Graph, pi: seq<int>, u: int, i: int,
                   dist: seq<Dist>, pv: seq<int>, pa: seq<int>, queue: multiset<Entry>, floor: int,
                   dist': seq<Dist>, pv': seq<int>, pa': seq<int>, queue': multiset<Entry>)
    requires RelaxStep(g, pi, u, i, floor, dist, pv, pa, queue, dist', pv', pa', queue')
    requires QueueOk(g, dist, queue, floor) && ReducedCost(g, pi, u, i) >= 0
    ensures QueueOk(g, dist', queue', floor)
  {
    var v := g[u][i].to;
    var nd := floor + ReducedCost(g, pi, u, i);
    forall e | e in queue'
      ensures 0 <= e.v < |g| && dist'[e.v].Fin? && dist'[e.v].v <= e.d && floor <= e.d
    {
      if e != Entry(nd, v) {
        assert e in queue;
      }
    }
  }

  lemma RelaxSettled(g: Graph, pi: seq<int>, u: int, i: int,
                     dist: seq<Dist>, pv: seq<int>, pa: seq<int>, queue: multiset<Entry>,
                     settled: set<int>, rank: seq<nat>, floor: int,
                     dist': seq<Dist>, pv': seq<int>, pa': seq<int>, queue': multiset<Entry>)
    requires |rank| == |g|
    requires RelaxStep(g, pi, u, i, floor, dist, pv, pa, queue, dist', pv', pa', queue')
    requires SettledOk(g, dist, queue, settled, rank, floor)
    requires g[u][i].to !in settled
    ensures SettledOk(g, dist', queue', settled, rank, floor)
  {
    var v := g[u][i].to;
    forall x | x in settled
      ensures 0 <= x < |g| && dist'[x].Fin? && dist'[x].v <= floor &&
              Entry(dist'[x].v, x) !in queue' && rank[x] < |settled|
    {
      assert x != v;
      assert dist'[x] == dist[x];
    }
  }

  lemma RelaxPending(g: Graph, pi: seq<int>, u: int, i: int,
                     dist: seq<Dist>, pv: seq<int>, pa: seq<int>, queue: multiset<Entry>,
                     settled: set<int>, floor: int,
                     dist': seq<Dist>, pv': seq<int>, pa': seq<int>, queue': multiset<Entry>)
    requires RelaxStep(g, pi, u, i, floor, dist, pv, pa, queue, dist', pv', pa', queue')
    requires PendingOk(g, dist, queue, settled)
    requires Entry(floor + ReducedCost(g, pi, u, i), g[u][i].to) !in queue
    ensures PendingOk(g, dist', queue', settled)
  {
    var v := g[u][i].to;
    var nd := floor + ReducedCost(g, pi, u, i);
    assert queue'[Entry(nd, v)] == 1;
    forall x | 0 <= x < |g| && dist'[x].Fin?
      ensures x in settled || Entry(dist'[x].v, x) in queue'
      ensures queue'[Entry(dist'[x].v, x)] <= 1
    {
      if x == v {
        assert dist'[x] == Fin(nd);
      } else {
        assert dist'[x] == dist[x];
        assert x in settled || Entry(dist[x].v, x) in queue;
        assert queue'[Entry(dist[x].v, x)] == queue[Entry(dist[x].v, x)];
      }
    }
  }

  lemma RelaxKeepsRelaxed(g: Graph, pi: seq<int>, u: int, i: int,
                          dist: seq<Dist>, pv: seq<int>, pa: seq<int>, queue: multiset<Entry>,
                          settled: set<int>, floor: int,
                          dist': seq<Dist>, pv': seq<int>, pa': seq<int>, queue': multiset<Entry>)
    requires 0 <= u < |g|
    requires RelaxStep(g, pi, u, i, floor, dist, pv, pa, queue, dist', pv', pa', queue')
    requires g[u][i].to !in settled && g[u][i].to != u
    requires forall x | x in settled && 0 <= x < |g| && x != u :: Relaxed(g, pi, dist, x)
    requires RelaxedUpTo(g, pi, dist, u, i)
    ensures forall x | x in settled && 0 <= x < |g| && x != u :: Relaxed(g, pi, dist', x)
    ensures RelaxedUpTo(g, pi, dist', u, i + 1)
  {
    var v := g[u][i].to;
    forall x | x in settled && 0 <= x < |g| && x != u
      ensures Relaxed(g, pi, dist', x)
    {
      assert Relaxed(g, pi, dist, x);
      assert dist'[x] == dist[x];
      forall j | 0 <= j < |g[x]| && HeadInRange(g, x, j) && Residual(g[x][j]) > 0 && dist'[x].Fin?
        ensures dist'[g[x][j].to].Fin? && dist'[g[x][j].to].v <= dist'[x].v + ReducedCost(g, pi, x, j)
      {
        var w := g[x][j].to;
        assert dist[w].Fin? && dist[w].v <= dist[x].v + ReducedCost(g, pi, x, j);
        if w == v {
          assert dist'[w].v < dist[w].v;
        } else {
          assert dist'[w] == dist[w];
        }
      }
    }
    forall j | 0 <= j < i + 1 && HeadInRange(g, u, j) && Residual(g[u][j]) > 0
      ensures dist'[g[u][j].to].Fin? && dist'[g[u][j].to].v <= dist'[u].v + ReducedCost(g, pi, u, j)
    {
      var w := g[u][j].to;
      assert dist'[u] == dist[u];
      if j < i {
        assert dist[w].Fin? && dist[w].v <= dist[u].v + ReducedCost(g, pi, u, j);
        if w == v {
          assert dist'[w].v < dist[w].v;
        } else {
          assert dist'[w] == dist[w];
        }
      }
    }
  }

  /** One successful relaxation of `g[u][i]` keeps the invariant. */
  lemma Relax(g: Graph, pi: seq<int>, s: int, live: set<int>, u: int, i: int,
              dist: seq<Dist>, pv: seq<int>, pa: seq<int>, queue: multiset<Entry>,
              settled: set<int>, rank: seq<nat>, floor: int,
              dist': seq<Dist>, pv': seq<int>, pa': seq<int>, queue': multiset<Entry>)
    requires |pi| == |g| && Feasible(g, pi, live)
    requires Core(g, pi, s, live, dist, pv, pa, queue, settled, rank, floor)
    requires 0 <= u < |g| && u in settled
    requires RelaxStep(g, pi, u, i, floor, dist, pv, pa, queue, dist', pv', pa', queue')
    requires forall x | x in settled && 0 <= x < |g| && x != u :: Relaxed(g, pi, dist, x)
    requires RelaxedUpTo(g, pi, dist, u, i)
    ensures Core(g, pi, s, live, dist', pv', pa', queue', settled, rank, floor)
    ensures forall x | x in settled && 0 <= x < |g| && x != u :: Relaxed(g, pi, dist', x)
    ensures RelaxedUpTo(g, pi, dist', u, i + 1)
  {
    RelaxFacts(g, pi, s, live, u, i, dist, pv, pa, queue, settled, rank, floor, dist', pv', pa', queue');
    RelaxTree(g, pi, u, i, dist, pv, pa, queue, settled, rank, floor, dist', pv', pa', queue');
    RelaxQueue(g, pi, u, i, dist, pv, pa, queue, floor, dist', pv', pa', queue');
    RelaxSettled(g, pi, u, i, dist, pv, pa, queue, settled, rank, floor, dist', pv', pa', queue');
    RelaxPending(g, pi, u, i, dist, pv, pa, queue, settled, floor, dist', pv', pa', queue');
    RelaxKeepsRelaxed(g, pi, u, i, dist, pv, pa, queue, settled, floor, dist', pv', pa', queue');
    assert SearchShape(g, pi, s, dist', pv', pa', settled, rank);
    assert ReachedOk(g, s, live, dist', pv');
  }

  /** The state right after `dijkstra` initialises its arrays and queue. */
  lemma InitCore(g: Graph, pi: seq<int>, s: int, live: set<int>,
                 dist: seq<Dist>, pv: seq<int>, pa: seq<int>, rank: seq<nat>)
    requires |pi| == |g| && 0 <= s < |g| && s in live
    requires dist == seq(|g|, _ => Inf)[s := Fin(0)]
    requires pv == seq(|g|, _ => -1) && pa == seq(|g|, _ => -1) && |rank| == |g|
    ensures Core(g, pi, s, live, dist, pv, pa, multiset{Entry(0, s)}, {}, rank, 0)
  {
    var queue := multiset{Entry(0, s)};
    forall x | 0 <= x < |g| && dist[x].Fin?
      ensures Entry(dist[x].v, x) in queue && queue[Entry(dist[x].v, x)] <= 1
    {
      assert x == s;
    }
  }

  /** Popping a stale entry keeps the invariant with the floor raised to it. */
  lemma PopStale(g: Graph, pi: seq<int>, s: int, live: set<int>,
                 dist: seq<Dist>, pv: seq<int>, pa: seq<int>, queue: multiset<Entry>,
                 settled: set<int>, rank: seq<nat>, floor: int, top: Entry)
    requires Core(g, pi, s, live, dist, pv, pa, queue, settled, rank, floor)
    requires top in queue && IsMin(top, queue) && top.d > dist[top.v].v
    ensures Core(g, pi, s, live, dist, pv, pa, queue - multiset{top}, settled, rank, top.d)
  {
    var q := queue - multiset{top};
    forall e | e in q
      ensures 0 <= e.v < |g| && dist[e.v].Fin? && dist[e.v].v <= e.d && top.d <= e.d
    {
      assert q[e] <= queue[e];
    }
    forall x | x in settled
      ensures 0 <= x < |g| && dist[x].Fin? && dist[x].v <= top.d &&
              Entry(dist[x].v, x) !in q && rank[x] < |settled|
    {
      assert q[Entry(dist[x].v, x)] <= queue[Entry(dist[x].v, x)];
    }
    forall x | 0 <= x < |g| && dist[x].Fin?
      ensures x in settled || Entry(dist[x].v, x) in q
      ensures q[Entry(dist[x].v, x)] <= 1
    {
      assert Entry(dist[x].v, x) != top ==> q[Entry(dist[x].v, x)] == queue[Entry(dist[x].v, x)];
    }
  }

  /** Popping an entry that matches its vertex's distance settles the vertex:
      it was not settled before and gets the next rank. */
  lemma PopSettle(g: Graph, pi: seq<int>, s: int, live: set<int>,
                  dist: seq<Dist>, pv: seq<int>, pa: seq<int>, queue: multiset<Entry>,
                  settled: set<int>, rank: seq<nat>, floor: int, top: Entry)
    requires Core(g, pi, s, live, dist, pv, pa, queue, settled, rank, floor)
    requires top in queue && IsMin(top, queue) && top.d <= dist[top.v].v
    ensures top.v !in settled && dist[top.v] == Fin(top.d)
    ensures Core(g, pi, s, live, dist, pv, pa, queue - multiset{top},
                 settled + {top.v}, rank[top.v := |settled|], top.d)
  {
    var u := top.v;
    var q := queue - multiset{top};
    var settled' := settled + {u};
    var rank' := rank[u := |settled|];
    assert dist[u] == Fin(top.d);
    assert u !in settled;
    assert |settled'| == |settled| + 1;
    assert q[top] == 0;
    forall v | 0 <= v < |g| && pv[v] != -1
      ensures TreeEdge(g, pi, dist, pv, pa, v) && pv[v] in settled' &&
              (v in settled' ==> rank'[pv[v]] < rank'[v])
    {
      assert pv[v] in settled;
      assert pv[v] != u;
    }
    forall e | e in q
      ensures 0 <= e.v < |g| && dist[e.v].Fin? && dist[e.v].v <= e.d && top.d <= e.d
    {
      assert q[e] <= queue[e];
    }
    forall x | x in settled'
      ensures 0 <= x < |g| && dist[x].Fin? && dist[x].v <= top.d &&
              Entry(dist[x].v, x) !in q && rank'[x] < |settled'|
    {
      if x != u {
        assert q[Entry(dist[x].v, x)] <= queue[Entry(dist[x].v, x)];
      }
    }
    forall x | 0 <= x < |g| && dist[x].Fin?
      ensures x in settled' || Entry(dist[x].v, x) in q
      ensures q[Entry(dist[x].v, x)] <= 1
    {
      assert Entry(dist[x].v, x) != top ==> q[Entry(dist[x].v, x)] == queue[Entry(dist[x].v, x)];
    }
    assert TreeOk(g, pi, dist, pv, pa, settled', rank');
    assert QueueOk(g, dist, q, top.d);
    assert SettledOk(g, dist, q, settled', rank', top.d);
    assert PendingOk(g, dist, q, settled');
  }

  /** With the queue empty every reached vertex is settled, so the invariant
      is the shortest-path tree promised by the search. */
  lemma FinishSearch(g: Graph, pi: seq<int>, s: int, live: set<int>,
                     dist: seq<Dist>, pv: seq<int>, pa: seq<int>,
                     settled: set<int>, rank: seq<nat>, floor: int)
    requires Core(g, pi, s, live, dist, pv, pa, multiset{}, settled, rank, floor)
    requires forall x | x in settled && 0 <= x < |g| :: Relaxed(g, pi, dist, x)
    ensures ShortestPathTree(g, pi, s, live, dist, pv, pa, rank)
  {
    forall x | 0 <= x < |g| && dist[x].Fin?
      ensures x in settled
    {
      assert Entry(dist[x].v, x) !in multiset{};
    }
    forall x | 0 <= x < |g|
      ensures Relaxed(g, pi, dist, x)
    {
      if dist[x].Fin? {
        assert x in settled;
      }
    }
    forall v | 0 <= v < |g| && pv[v] != -1
      ensures TreeEdge(g, pi, dist, pv, pa, v) && rank[pv[v]] < rank[v]
    {
      assert v in settled;
    }
  }

  /** `dijkstra(fonte, sorvedouro)`: returns whether the sink was reached,
      together with the distances and the parent vertex and parent edge of
      every vertex.  The ghost `rank` orders the vertices as they are settled. */
  method Search(g: Graph, pi: seq<int>, s: int, t: int, ghost live: set<int>)
    returns (found: bool, dist: seq<Dist>, pv: seq<int>, pa: seq<int>, ghost rank: seq<nat>)
    requires HeadsInRange(g) && |pi| == |g|
    requires 0 <= s < |g| && 0 <= t < |g|
    requires s in live && Feasible(g, pi, live)
    ensures ShortestPathTree(g, pi, s, live, dist, pv, pa, rank)
    ensures found <==> dist[t].Fin?
  {
    var n := |g|;
    dist := seq(n, _ => Inf)[s := Fin(0)];
    pv := seq(n, _ => -1);
    pa := seq(n, _ => -1);
    rank := seq(n, _ => 0);
    var queue := multiset{Entry(0, s)};
    ghost var settled: set<int> := {};
    ghost var floor := 0;
    InitCore(g, pi, s, live, dist, pv, pa, rank);
    while queue != multiset{}
      invariant Core(g, pi, s, live, dist, pv, pa, queue, settled, rank, floor)
      invariant forall x | x in settled && 0 <= x < |g| :: Relaxed(g, pi, dist, x)
      decreases VertexSet(n) - settled, |queue|
    {
      MinExists(queue);
      var top :| top in queue && IsMin(top, queue);
      var u := top.v;
      if top.d <= dist[u].v {
        PopSettle(g, pi, s, live, dist, pv, pa, queue, settled, rank, floor, top);
        rank := rank[u := |settled|];
        settled := settled + {u};
        queue := queue - multiset{top};
        floor := top.d;
        assert RelaxedUpTo(g, pi, dist, u, 0);
        var l := ScanEdges(g, pi, s, live, u, Labels(dist, pv, pa, queue), settled, rank, floor);
        dist, pv, pa, queue := l.dist, l.pv, l.pa, l.queue;
      } else {
        PopStale(g, pi, s, live, dist, pv, pa, queue, settled, rank, floor, top);
        queue := queue - multiset{top};
        floor := top.d;
      }
    }
    FinishSearch(g, pi, s, live, dist, pv, pa, settled, rank, floor);
    found := dist[t].Fin?;
  }
}
