/** `DirectedGraph::hasNegativeCycle(cycle)` (LAB_02): Bellman–Ford from
    every vertex at once (all distances start at 0), `numVertices` passes
    over the edge list, remembering for each vertex the source of the edge
    that last lowered it; if the last pass still lowered something, `n`
    parent steps from the last lowered vertex land on a parent cycle, which
    is read off backwards and reversed.

    The ghost `Trace` records, per vertex, when it was last lowered (pass
    and edge index), through which edge, a walk whose weight is its
    distance and which starts at `from`, and the distance `pd` its parent
    had at that moment. */
module NegativeCycle {
  import opened WeightedDigraph
  import opened Walks

  /** A moment of the relaxation: pass `pass`, edge index `idx`. */
  datatype Stamp = Stamp(pass: int, idx: int)

  predicate Before(a: Stamp, b: Stamp)
  {
    a.pass < b.pass || (a.pass == b.pass && a.idx < b.idx)
  }

  /** When edge `k` was last looked at, seen from edge `j` of pass `i`;
      a negative pass means never. */
  function Look(i: int, j: int, k: int): Stamp
  {
    if k < j then Stamp(i, k) else Stamp(i - 1, k)
  }

  datatype Trace = Trace(stamp: seq<Stamp>, pe: seq<int>, wit: seq<seq<int>>, from: seq<int>, pd: seq<int>)

  ghost predicate Sizes(g: Digraph, dist: seq<int>, parent: seq<int>, tr: Trace)
  {
    && Valid(g) && |dist| == g.n && |parent| == g.n
    && |tr.stamp| == g.n && |tr.pe| == g.n && |tr.wit| == g.n && |tr.from| == g.n && |tr.pd| == g.n
  }

  /** Each distance is the weight of a walk that starts at some vertex. */
  ghost predicate Sound(g: Digraph, dist: seq<int>, tr: Trace)
    requires |dist| == g.n && |tr.wit| == g.n && |tr.from| == g.n
  {
    forall v | 0 <= v < g.n ::
      0 <= tr.from[v] < g.n && EdgeWalk(g.edges, tr.from[v], tr.wit[v], v)
      && WalkWeight(g.edges, tr.wit[v]) == dist[v]
  }

  /** No walk of at most `len` edges, from any vertex, is lighter than the
      distance of its end. */
  ghost predicate Bounded(g: Digraph, dist: seq<int>, len: int)
  {
    forall f, p, v | 0 <= f < g.n && EdgeWalk(g.edges, f, p, v) && |p| <= len ::
      0 <= v < |dist| && dist[v] <= WalkWeight(g.edges, p)
  }

  /** The same for walks of `len` edges whose last edge precedes index `j`. */
  ghost predicate BoundedBefore(g: Digraph, dist: seq<int>, len: int, j: int)
  {
    forall f, p, v | 0 <= f < g.n && EdgeWalk(g.edges, f, p, v) && |p| == len && len > 0 && p[len - 1] < j ::
      0 <= v < |dist| && dist[v] <= WalkWeight(g.edges, p)
  }

  ghost predicate AllBounded(g: Digraph, dist: seq<int>)
  {
    forall f, p, v | 0 <= f < g.n && EdgeWalk(g.edges, f, p, v) ::
      0 <= v < |dist| && dist[v] <= WalkWeight(g.edges, p)
  }

  /** An edge whose source has not been lowered since the edge was last
      looked at is satisfied. */
  ghost predicate Settled(g: Digraph, dist: seq<int>, stamp: seq<Stamp>, i: int, j: int)
    requires Valid(g) && |dist| == g.n && |stamp| == g.n
  {
    forall k | 0 <= k < |g.edges| && Look(i, j, k).pass >= 0 ::
      var e := g.edges[k];
      Before(stamp[e.source], Look(i, j, k)) ==> dist[e.target] <= dist[e.source] + e.weight
  }

  /** Edge `pe[v]` runs from `parent[v]` to `v`. */
  ghost predicate ParentEdge(g: Digraph, parent: seq<int>, pe: seq<int>, v: int)
    requires |parent| == g.n && |pe| == g.n && 0 <= v < g.n
  {
    0 <= pe[v] < |g.edges| && g.edges[pe[v]].source == parent[v] && g.edges[pe[v]].target == v
  }

  /** `v` has a parent exactly when it has been lowered, through an edge,
      and its parent was lowered at most one pass before it. */
  ghost predicate ParentOk(g: Digraph, parent: seq<int>, tr: Trace, v: int)
    requires |parent| == g.n && |tr.pe| == g.n && |tr.stamp| == g.n && 0 <= v < g.n
  {
    && (parent[v] == -1 <==> tr.stamp[v].pass == -1)
    && -1 <= tr.stamp[v].pass
    && (parent[v] != -1 ==>
          ParentEdge(g, parent, tr.pe, v) && 0 <= parent[v] < g.n
          && tr.stamp[parent[v]].pass >= tr.stamp[v].pass - 1)
  }

  ghost predicate Parents(g: Digraph, parent: seq<int>, tr: Trace)
    requires |parent| == g.n && |tr.pe| == g.n && |tr.stamp| == g.n
  {
    forall v | 0 <= v < g.n :: ParentOk(g, parent, tr, v)
  }

  /** A vertex with a parent weighs its parent's distance at the moment it
      was lowered plus the parent edge; the parent has not got heavier
      since, and it is strictly lighter unless it was last lowered before
      the child. */
  ghost predicate SlackOk(g: Digraph, dist: seq<int>, parent: seq<int>, tr: Trace, v: int)
    requires Sizes(g, dist, parent, tr) && 0 <= v < g.n
  {
    parent[v] != -1 && ParentEdge(g, parent, tr.pe, v) && 0 <= parent[v] < g.n ==>
      && dist[v] == tr.pd[v] + g.edges[tr.pe[v]].weight
      && dist[parent[v]] <= tr.pd[v]
      && (!Before(tr.stamp[parent[v]], tr.stamp[v]) ==> dist[parent[v]] < tr.pd[v])
  }

  ghost predicate Slack(g: Digraph, dist: seq<int>, parent: seq<int>, tr: Trace)
    requires Sizes(g, dist, parent, tr)
  {
    forall v | 0 <= v < g.n :: SlackOk(g, dist, parent, tr, v)
  }

  /** Every stamp precedes the look at edge `j` of pass `i`. */
  ghost predicate StampsBefore(stamp: seq<Stamp>, i: int, j: int)
  {
    forall v | 0 <= v < |stamp| :: Before(stamp[v], Stamp(i, j))
  }

  /** During pass `i`: no stamp is later, and `x` is the last vertex this
      pass lowered, or -1 if it lowered none. */
  ghost predicate Latest(g: Digraph, x: int, stamp: seq<Stamp>, i: int)
    requires |stamp| == g.n
  {
    && (forall v | 0 <= v < g.n :: stamp[v].pass <= i)
    && (x == -1 <==> forall v | 0 <= v < g.n :: stamp[v].pass < i)
    && (x != -1 ==> 0 <= x < g.n && stamp[x].pass == i)
  }

  /** Without negative cycles the last pass starts at the true distances
      and so lowers nothing. */
  ghost predicate Quiet(g: Digraph, dist: seq<int>, x: int, i: int)
  {
    i == g.n - 1 && !HasNegativeCycle(g.edges) ==> x == -1 && AllBounded(g, dist)
  }

  ghost predicate Inv(g: Digraph, dist: seq<int>, parent: seq<int>, x: int, tr: Trace, i: int, j: int)
  {
    && Sizes(g, dist, parent, tr) && 0 <= i < g.n && 0 <= j <= |g.edges|
    && Sound(g, dist, tr)
    && Bounded(g, dist, i) && BoundedBefore(g, dist, i + 1, j)
    && Settled(g, dist, tr.stamp, i, j)
    && Parents(g, parent, tr)
    && Slack(g, dist, parent, tr) && StampsBefore(tr.stamp, i, j)
    && Latest(g, x, tr.stamp, i)
    && Quiet(g, dist, x, i)
  }

  /** One look at edge `j` of pass `i` (lines 35-38). */
  ghost predicate Step(g: Digraph, i: int, j: int, dist: seq<int>, parent: seq<int>, x: int, tr: Trace,
                       dist': seq<int>, parent': seq<int>, x': int, tr': Trace)
    requires Sizes(g, dist, parent, tr) && 0 <= j < |g.edges|
  {
    var e := g.edges[j];
    if dist[e.target] > dist[e.source] + e.weight then
      && dist' == dist[e.target := dist[e.source] + e.weight]
      && parent' == parent[e.target := e.source]
      && x' == e.target
      && tr' == Trace(tr.stamp[e.target := Stamp(i, j)], tr.pe[e.target := j],
                      tr.wit[e.target := tr.wit[e.source] + [j]], tr.from[e.target := tr.from[e.source]],
                      tr.pd[e.target := dist[e.source]])
    else
      dist' == dist && parent' == parent && x' == x && tr' == tr
  }

  lemma LowerKeepsBounds(g: Digraph, dist: seq<int>, dist': seq<int>, len: int, j: int)
    requires len >= 0 && |dist'| == |dist| && forall v | 0 <= v < |dist| :: dist'[v] <= dist[v]
    requires Bounded(g, dist, len) && BoundedBefore(g, dist, len + 1, j)
    ensures Bounded(g, dist', len) && BoundedBefore(g, dist', len + 1, j)
  {
    forall f, p, v | 0 <= f < g.n && EdgeWalk(g.edges, f, p, v) && |p| <= len
      ensures 0 <= v < |dist'| && dist'[v] <= WalkWeight(g.edges, p)
    {
      assert 0 <= v < |dist|;
    }
    forall f, p, v | 0 <= f < g.n && EdgeWalk(g.edges, f, p, v) && |p| == len + 1 && p[len] < j
      ensures 0 <= v < |dist'| && dist'[v] <= WalkWeight(g.edges, p)
    {
      assert 0 <= v < |dist|;
    }
  }

  /** After the look at edge `j`, its target is no heavier than its
      source's distance before the look plus its weight. */
  lemma CoverEdge(g: Digraph, dist: seq<int>, dist': seq<int>, i: int, j: int)
    requires Valid(g) && |dist| == g.n && |dist'| == g.n && 0 <= j < |g.edges| && i >= 0
    requires Bounded(g, dist, i) && BoundedBefore(g, dist', i + 1, j)
    requires dist'[g.edges[j].target] <= dist[g.edges[j].source] + g.edges[j].weight
    ensures BoundedBefore(g, dist', i + 1, j + 1)
  {
    var e := g.edges[j];
    forall f, p, v | 0 <= f < g.n && EdgeWalk(g.edges, f, p, v) && |p| == i + 1 && i + 1 > 0 && p[i] < j + 1
      ensures 0 <= v < |dist'| && dist'[v] <= WalkWeight(g.edges, p)
    {
      if p[i] == j {
        var q := p[..i];
        assert EdgeWalk(g.edges, f, q, e.source);
        assert |q| <= i;
      }
    }
  }

  lemma StepBounds(g: Digraph, i: int, j: int, dist: seq<int>, parent: seq<int>, x: int, tr: Trace,
                   dist': seq<int>, parent': seq<int>, x': int, tr': Trace)
    requires Sizes(g, dist, parent, tr) && 0 <= i && 0 <= j < |g.edges|
    requires Bounded(g, dist, i) && BoundedBefore(g, dist, i + 1, j)
    requires Step(g, i, j, dist, parent, x, tr, dist', parent', x', tr')
    ensures Bounded(g, dist', i) && BoundedBefore(g, dist', i + 1, j + 1)
  {
    var e := g.edges[j];
    if dist[e.target] > dist[e.source] + e.weight {
      LowerKeepsBounds(g, dist, dist', i, j);
    }
    CoverEdge(g, dist, dist', i, j);
  }

  lemma StepSound(g: Digraph, i: int, j: int, dist: seq<int>, parent: seq<int>, x: int, tr: Trace,
                  dist': seq<int>, parent': seq<int>, x': int, tr': Trace)
    requires Sizes(g, dist, parent, tr) && 0 <= j < |g.edges| && Sound(g, dist, tr)
    requires Step(g, i, j, dist, parent, x, tr, dist', parent', x', tr')
    ensures Sizes(g, dist', parent', tr') && Sound(g, dist', tr')
  {
    var e := g.edges[j];
    if dist[e.target] > dist[e.source] + e.weight {
      var p := tr.wit[e.source] + [j];
      assert p[..|p| - 1] == tr.wit[e.source];
      assert EdgeWalk(g.edges, tr.from[e.source], p, e.target);
    }
  }

  lemma StepSettled(g: Digraph, i: int, j: int, dist: seq<int>, parent: seq<int>, x: int, tr: Trace,
                    dist': seq<int>, parent': seq<int>, x': int, tr': Trace)
    requires Sizes(g, dist, parent, tr) && 0 <= j < |g.edges|
    requires Settled(g, dist, tr.stamp, i, j) && Latest(g, x, tr.stamp, i)
    requires Step(g, i, j, dist, parent, x, tr, dist', parent', x', tr')
    ensures Sizes(g, dist', parent', tr') && Settled(g, dist', tr'.stamp, i, j + 1)
  {
    var e := g.edges[j];
    forall k | 0 <= k < |g.edges| && Look(i, j + 1, k).pass >= 0
      ensures var d := g.edges[k];
        Before(tr'.stamp[d.source], Look(i, j + 1, k)) ==> dist'[d.target] <= dist'[d.source] + d.weight
    {
      var d := g.edges[k];
      if k != j {
        assert Look(i, j + 1, k) == Look(i, j, k);
      }
    }
  }

  /** An edge that lowers its target now has a source lowered no earlier
      than the pass before: otherwise its previous look settled it. */
  lemma RecentSource(g: Digraph, i: int, j: int, dist: seq<int>, stamp: seq<Stamp>)
    requires Valid(g) && |dist| == g.n && |stamp| == g.n && 0 <= j < |g.edges|
    requires Settled(g, dist, stamp, i, j) && -1 <= stamp[g.edges[j].source].pass
    requires dist[g.edges[j].target] > dist[g.edges[j].source] + g.edges[j].weight
    ensures stamp[g.edges[j].source].pass >= i - 1
  {
    if i >= 1 {
      assert Look(i, j, j) == Stamp(i - 1, j);
    }
  }

  lemma StepParents(g: Digraph, i: int, j: int, dist: seq<int>, parent: seq<int>, x: int, tr: Trace,
                    dist': seq<int>, parent': seq<int>, x': int, tr': Trace)
    requires Sizes(g, dist, parent, tr) && 0 <= i && 0 <= j < |g.edges|
    requires Settled(g, dist, tr.stamp, i, j) && Parents(g, parent, tr)
    requires forall v | 0 <= v < g.n :: tr.stamp[v].pass <= i
    requires Step(g, i, j, dist, parent, x, tr, dist', parent', x', tr')
    ensures Sizes(g, dist', parent', tr') && Parents(g, parent', tr')
  {
    var e := g.edges[j];
    if dist[e.target] > dist[e.source] + e.weight {
      assert ParentOk(g, parent, tr, e.source);
      RecentSource(g, i, j, dist, tr.stamp);
      forall v | 0 <= v < g.n
        ensures ParentOk(g, parent', tr', v)
      {
        assert ParentOk(g, parent, tr, v);
      }
    }
  }

  lemma StepLatest(g: Digraph, i: int, j: int, dist: seq<int>, parent: seq<int>, x: int, tr: Trace,
                   dist': seq<int>, parent': seq<int>, x': int, tr': Trace)
    requires Sizes(g, dist, parent, tr) && 0 <= i && 0 <= j < |g.edges| && Latest(g, x, tr.stamp, i)
    requires Step(g, i, j, dist, parent, x, tr, dist', parent', x', tr')
    ensures Sizes(g, dist', parent', tr') && Latest(g, x', tr'.stamp, i)
  {
    var e := g.edges[j];
    if dist[e.target] > dist[e.source] + e.weight {
      var st := tr.stamp[e.target := Stamp(i, j)];
      assert tr'.stamp == st && x' == e.target && st[e.target].pass == i;
      assert forall v | 0 <= v < g.n :: st[v].pass <= i;
    }
  }

  lemma StepQuiet(g: Digraph, i: int, j: int, dist: seq<int>, parent: seq<int>, x: int, tr: Trace,
                  dist': seq<int>, parent': seq<int>, x': int, tr': Trace)
    requires Sizes(g, dist, parent, tr) && 0 <= j < |g.edges|
    requires Sound(g, dist, tr) && Quiet(g, dist, x, i)
    requires Step(g, i, j, dist, parent, x, tr, dist', parent', x', tr')
    ensures Quiet(g, dist', x', i)
  {
    var e := g.edges[j];
    if dist[e.target] > dist[e.source] + e.weight {
      Unbounded(g, j, dist, tr);
    }
  }

  /** An edge that still lowers its target extends the walk behind its
      source's distance to a walk lighter than the target's distance. */
  lemma Unbounded(g: Digraph, j: int, dist: seq<int>, tr: Trace)
    requires |dist| == g.n && |tr.wit| == g.n && |tr.from| == g.n && Sound(g, dist, tr)
    requires 0 <= j < |g.edges| && 0 <= g.edges[j].source < g.n && 0 <= g.edges[j].target < g.n
    requires dist[g.edges[j].target] > dist[g.edges[j].source] + g.edges[j].weight
    ensures !AllBounded(g, dist)
  {
    var e := g.edges[j];
    var p := tr.wit[e.source] + [j];
    assert p[..|p| - 1] == tr.wit[e.source];
    assert EdgeWalk(g.edges, tr.from[e.source], p, e.target);
  }

  lemma StepKeeps(g: Digraph, i: int, j: int, dist: seq<int>, parent: seq<int>, x: int, tr: Trace,
                  dist': seq<int>, parent': seq<int>, x': int, tr': Trace)
    requires Inv(g, dist, parent, x, tr, i, j) && j < |g.edges|
    requires Step(g, i, j, dist, parent, x, tr, dist', parent', x', tr')
    ensures Inv(g, dist', parent', x', tr', i, j + 1)
  {
    StepBounds(g, i, j, dist, parent, x, tr, dist', parent', x', tr');
    StepSound(g, i, j, dist, parent, x, tr, dist', parent', x', tr');
    StepSettled(g, i, j, dist, parent, x, tr, dist', parent', x', tr');
    StepParents(g, i, j, dist, parent, x, tr, dist', parent', x', tr');
    StepLatest(g, i, j, dist, parent, x, tr, dist', parent', x', tr');
    StepQuiet(g, i, j, dist, parent, x, tr, dist', parent', x', tr');
    StepSlack(g, i, j, dist, parent, x, tr, dist', parent', x', tr');
  }

  lemma StepSlack(g: Digraph, i: int, j: int, dist: seq<int>, parent: seq<int>, x: int, tr: Trace,
                  dist': seq<int>, parent': seq<int>, x': int, tr': Trace)
    requires Sizes(g, dist, parent, tr) && 0 <= j < |g.edges|
    requires Slack(g, dist, parent, tr) && StampsBefore(tr.stamp, i, j)
    requires Step(g, i, j, dist, parent, x, tr, dist', parent', x', tr')
    ensures Sizes(g, dist', parent', tr') && Slack(g, dist', parent', tr') && StampsBefore(tr'.stamp, i, j + 1)
  {
    var e := g.edges[j];
    if dist[e.target] > dist[e.source] + e.weight {
      forall v | 0 <= v < g.n
        ensures SlackOk(g, dist', parent', tr', v)
      {
        assert SlackOk(g, dist, parent, tr, v);
        if v == e.target {
          assert Before(tr.stamp[e.source], Stamp(i, j)) || e.source == e.target;
        }
      }
    }
  }
  /** Between passes: `x` tells whether the previous pass lowered
      anything, and after the last pass, without negative cycles, it did not. */
  ghost predicate OuterInv(g: Digraph, dist: seq<int>, parent: seq<int>, x: int, tr: Trace, i: int)
  {
    && Sizes(g, dist, parent, tr) && 0 <= i <= g.n
    && Sound(g, dist, tr) && Bounded(g, dist, i)
    && Settled(g, dist, tr.stamp, i, 0)
    && Parents(g, parent, tr) && Slack(g, dist, parent, tr)
    && (forall v | 0 <= v < g.n :: tr.stamp[v].pass < i)
    && (i > 0 ==> (x == -1 <==> forall v | 0 <= v < g.n :: tr.stamp[v].pass < i - 1))
    && (i > 0 && x != -1 ==> 0 <= x < g.n && tr.stamp[x].pass == i - 1)
    && (i == g.n && !HasNegativeCycle(g.edges) ==> x == -1)
  }

  lemma ValidEndpoints(g: Digraph)
    requires Valid(g)
    ensures EndpointsIn(g.edges, g.n)
  {
  }

  /** Without negative cycles, bounding the walks of fewer than `n` edges
      bounds them all. */
  lemma BoundAll(g: Digraph, dist: seq<int>)
    requires Valid(g) && g.n >= 1 && Bounded(g, dist, g.n - 1) && !HasNegativeCycle(g.edges)
    ensures AllBounded(g, dist)
  {
    ValidEndpoints(g);
    forall f, p, v | 0 <= f < g.n && EdgeWalk(g.edges, f, p, v)
      ensures 0 <= v < |dist| && dist[v] <= WalkWeight(g.edges, p)
    {
      Shorten(g.edges, g.n, f, p, v);
      var q :| EdgeWalk(g.edges, f, q, v) && |q| < g.n && WalkWeight(g.edges, q) <= WalkWeight(g.edges, p);
    }
  }

  lemma InitOuter(g: Digraph, dist: seq<int>, parent: seq<int>, tr: Trace)
    requires Valid(g) && dist == seq(g.n, _ => 0) && parent == seq(g.n, _ => -1)
    requires tr == Trace(seq(g.n, _ => Stamp(-1, 0)), seq(g.n, _ => 0), seq(g.n, _ => []), seq(g.n, v => v), seq(g.n, _ => 0))
    ensures OuterInv(g, dist, parent, -1, tr, 0)
  {
  }

  lemma PassStart(g: Digraph, dist: seq<int>, parent: seq<int>, x: int, tr: Trace, i: int)
    requires OuterInv(g, dist, parent, x, tr, i) && i < g.n
    ensures Inv(g, dist, parent, -1, tr, i, 0)
  {
    forall f, p, v | 0 <= f < g.n && EdgeWalk(g.edges, f, p, v) && |p| == i + 1 && i + 1 > 0
      ensures p[i] >= 0
    {
    }
    if i == g.n - 1 && !HasNegativeCycle(g.edges) {
      BoundAll(g, dist);
    }
  }

  lemma PassEnd(g: Digraph, dist: seq<int>, parent: seq<int>, x: int, tr: Trace, i: int)
    requires Inv(g, dist, parent, x, tr, i, |g.edges|)
    ensures OuterInv(g, dist, parent, x, tr, i + 1)
  {
    forall f, p, v | 0 <= f < g.n && EdgeWalk(g.edges, f, p, v) && |p| <= i + 1
      ensures 0 <= v < |dist| && dist[v] <= WalkWeight(g.edges, p)
    {
      if |p| == i + 1 {
        assert p[i] < |g.edges|;
      }
    }
    forall k | 0 <= k < |g.edges|
      ensures Look(i + 1, 0, k) == Look(i, |g.edges|, k)
    {
    }
  }

  /** If the last pass lowered nothing, the distances form a potential. */
  lemma QuietPassPotential(g: Digraph, dist: seq<int>, parent: seq<int>, tr: Trace)
    requires OuterInv(g, dist, parent, -1, tr, g.n)
    ensures Potential(g.edges, dist)
  {
    forall k | 0 <= k < |g.edges|
      ensures dist[g.edges[k].target] <= dist[g.edges[k].source] + g.edges[k].weight
    {
      assert 0 <= g.edges[k].source < g.n;
      assert Look(g.n, 0, k) == Stamp(g.n - 1, k);
      assert Before(tr.stamp[g.edges[k].source], Look(g.n, 0, k));
    }
  }

  /** The vertex `k` parent steps above `v` (-1 once a step leaves the graph). */
  function Up(parent: seq<int>, v: int, k: nat): int
  {
    if k == 0 then v
    else
      var u := Up(parent, v, k - 1);
      if 0 <= u < |parent| then parent[u] else -1
  }

  /** `v` is a vertex with a parent, reached through edge `pe[v]`. */
  ghost predicate Linked(g: Digraph, parent: seq<int>, pe: seq<int>, v: int)
    requires |parent| == g.n && |pe| == g.n
  {
    0 <= v < g.n && parent[v] != -1 && ParentEdge(g, parent, pe, v)
  }

  /** `k` parent steps above the vertex lowered in the last pass, the pass
      of the last lowering has dropped by at most `k`. */
  lemma {:induction false} UpChain(g: Digraph, parent: seq<int>, tr: Trace, x0: int, k: nat)
    requires Valid(g) && |parent| == g.n && |tr.pe| == g.n && |tr.stamp| == g.n && Parents(g, parent, tr)
    requires 0 <= x0 < g.n && tr.stamp[x0].pass == g.n - 1 && k <= g.n - 1
    ensures 0 <= Up(parent, x0, k) < g.n && tr.stamp[Up(parent, x0, k)].pass >= g.n - 1 - k
    ensures Linked(g, parent, tr.pe, Up(parent, x0, k))
    decreases k
  {
    if k > 0 {
      UpChain(g, parent, tr, x0, k - 1);
      var z := Up(parent, x0, k - 1);
      assert ParentOk(g, parent, tr, z);
    }
    assert ParentOk(g, parent, tr, Up(parent, x0, k));
  }

  /** Among the first `n + 1` vertices of the parent chain one repeats. */
  lemma ChainRepeats(g: Digraph, parent: seq<int>, tr: Trace, x0: int)
    requires Valid(g) && |parent| == g.n && |tr.pe| == g.n && |tr.stamp| == g.n && Parents(g, parent, tr)
    requires 0 <= x0 < g.n && tr.stamp[x0].pass == g.n - 1
    ensures exists a, b :: 0 <= a < b <= g.n && Up(parent, x0, a) == Up(parent, x0, b)
  {
    var vs := seq(g.n + 1, k requires 0 <= k => Up(parent, x0, k));
    forall k | 0 <= k < |vs|
      ensures 0 <= vs[k] < g.n
    {
      UpChain(g, parent, tr, x0, if k == g.n then k - 1 else k);
    }
    Pigeonhole(vs, g.n);
    var a, b :| 0 <= a < b < |vs| && vs[a] == vs[b];
    assert Up(parent, x0, a) == Up(parent, x0, b);
  }

  /** From the repetition on, the chain goes round with period `b - a`. */
  lemma {:induction false} Periodic(parent: seq<int>, x0: int, a: nat, b: nat, c: nat)
    requires a < b && Up(parent, x0, a) == Up(parent, x0, b) && c >= a
    ensures Up(parent, x0, c + (b - a)) == Up(parent, x0, c)
    decreases c - a
  {
    if c > a {
      Periodic(parent, x0, a, b, c - 1);
    }
  }

  /** Every vertex of the chain from the repetition on has a parent. */
  lemma {:induction false} OnLoop(g: Digraph, parent: seq<int>, tr: Trace, x0: int, a: nat, b: nat, c: nat)
    requires Valid(g) && |parent| == g.n && |tr.pe| == g.n && |tr.stamp| == g.n && Parents(g, parent, tr)
    requires 0 <= x0 < g.n && tr.stamp[x0].pass == g.n - 1
    requires a < b <= g.n && Up(parent, x0, a) == Up(parent, x0, b) && c >= a
    ensures Linked(g, parent, tr.pe, Up(parent, x0, c))
    decreases c
  {
    if c < b {
      UpChain(g, parent, tr, x0, c);
    } else {
      Periodic(parent, x0, a, b, c - (b - a));
      OnLoop(g, parent, tr, x0, a, b, c - (b - a));
    }
  }

  function Reverse(s: seq<int>): (r: seq<int>)
    ensures |r| == |s| && forall i | 0 <= i < |s| :: r[i] == s[|s| - 1 - i]
  {
    seq(|s|, i requires 0 <= i < |s| => s[|s| - 1 - i])
  }

  /** `cycle` starts and ends at one vertex and each consecutive pair is an
      edge of the edge list. */
  ghost predicate CycleOfEdges(g: Digraph, cycle: seq<int>)
  {
    && |cycle| >= 2 && cycle[0] == cycle[|cycle| - 1]
    && forall i | 0 <= i < |cycle| - 1 :: EdgeFrom(g, cycle[i], cycle[i + 1])
  }

  /** Some edge of the edge list goes from `a` to `b`. */
  ghost predicate EdgeFrom(g: Digraph, a: int, b: int)
  {
    exists k :: 0 <= k < |g.edges| && g.edges[k].source == a && g.edges[k].target == b
  }

  /** `c[q]` has a parent, and it is `c[q + 1]`. */
  ghost predicate ChildOf(g: Digraph, parent: seq<int>, pe: seq<int>, c: seq<int>, q: int)
    requires |parent| == g.n && |pe| == g.n && 0 <= q < |c| - 1
  {
    Linked(g, parent, pe, c[q]) && c[q + 1] == parent[c[q]]
  }

  /** The parent edge of a chain link goes from the parent to the child. */
  lemma ChildEdge(g: Digraph, parent: seq<int>, pe: seq<int>, c: seq<int>, q: int)
    requires |parent| == g.n && |pe| == g.n && 0 <= q < |c| - 1
    requires ChildOf(g, parent, pe, c, q)
    ensures EdgeFrom(g, c[q + 1], c[q])
  {
    var k := pe[c[q]];
    assert 0 <= k < |g.edges| && g.edges[k].source == c[q + 1] && g.edges[k].target == c[q];
  }

  /** A chain read child-first, reversed, runs along edges. */
  lemma ReversedChain(g: Digraph, parent: seq<int>, pe: seq<int>, c: seq<int>)
    requires |parent| == g.n && |pe| == g.n && |c| >= 2 && c[0] == c[|c| - 1]
    requires forall q | 0 <= q < |c| - 1 :: ChildOf(g, parent, pe, c, q)
    ensures CycleOfEdges(g, Reverse(c))
  {
    var r := Reverse(c);
    assert r[0] == c[|c| - 1] && r[|r| - 1] == c[0];
    forall i | 0 <= i < |r| - 1
      ensures EdgeFrom(g, r[i], r[i + 1])
    {
      ReversedLink(g, parent, pe, c, i);
    }
  }

  /** Position `i` of the reversed chain is link `|c| - 2 - i` read
      parent first. */
  lemma ReversedLink(g: Digraph, parent: seq<int>, pe: seq<int>, c: seq<int>, i: int)
    requires |parent| == g.n && |pe| == g.n && 0 <= i < |c| - 1
    requires ChildOf(g, parent, pe, c, |c| - 2 - i)
    ensures EdgeFrom(g, Reverse(c)[i], Reverse(c)[i + 1])
  {
    var q := |c| - 2 - i;
    var r := Reverse(c);
    assert r[i] == c[q + 1] && r[i + 1] == c[q];
    ChildEdge(g, parent, pe, c, q);
  }

  /** `p` picks, for each consecutive pair of `cycle`, an edge of the edge
      list from the first to the second. */
  ghost predicate AlongEdges(g: Digraph, cycle: seq<int>, p: seq<int>)
  {
    && |p| == |cycle| - 1
    && forall i | 0 <= i < |p| ::
         0 <= p[i] < |g.edges| && g.edges[p[i]].source == cycle[i] && g.edges[p[i]].target == cycle[i + 1]
  }

  /** Edge `p[i]` runs from `r[i]` to `r[i + 1]` and weighs at most the
      rise in distance between them, strictly less when `r[i]` was not
      lowered before `r[i + 1]`. */
  ghost predicate Drop(g: Digraph, dist: seq<int>, stamp: seq<Stamp>, r: seq<int>, p: seq<int>, i: int)
    requires |dist| == g.n && |stamp| == g.n && |p| == |r| - 1 && 0 <= i < |p|
  {
    && 0 <= p[i] < |g.edges| && 0 <= r[i] < g.n && 0 <= r[i + 1] < g.n
    && g.edges[p[i]].source == r[i] && g.edges[p[i]].target == r[i + 1]
    && g.edges[p[i]].weight <= dist[r[i + 1]] - dist[r[i]]
    && (!Before(stamp[r[i]], stamp[r[i + 1]]) ==> g.edges[p[i]].weight < dist[r[i + 1]] - dist[r[i]])
  }

  /** The first `k` edges weigh at most the rise in distance over them,
      strictly less once one of them is strict. */
  lemma {:induction false} DropSum(g: Digraph, dist: seq<int>, stamp: seq<Stamp>, r: seq<int>, p: seq<int>, k: nat)
    requires |dist| == g.n && |stamp| == g.n && |p| == |r| - 1 && k <= |p|
    requires forall i | 0 <= i < |r| :: 0 <= r[i] < g.n
    requires forall i | 0 <= i < |p| :: Drop(g, dist, stamp, r, p, i)
    ensures WalkWeight(g.edges, p[..k]) <= dist[r[k]] - dist[r[0]]
    ensures (exists i :: 0 <= i < k && !Before(stamp[r[i]], stamp[r[i + 1]])) ==>
              WalkWeight(g.edges, p[..k]) < dist[r[k]] - dist[r[0]]
    decreases k
  {
    if k > 0 {
      DropSum(g, dist, stamp, r, p, k - 1);
      assert p[..k][..k - 1] == p[..k - 1];
      assert Drop(g, dist, stamp, r, p, k - 1);
    }
  }

  /** Stamps cannot rise all the way round a closed chain. */
  lemma SomeNotBefore(stamp: seq<Stamp>, r: seq<int>)
    requires |r| >= 2 && r[0] == r[|r| - 1] && forall i | 0 <= i < |r| :: 0 <= r[i] < |stamp|
    ensures exists i :: 0 <= i < |r| - 1 && !Before(stamp[r[i]], stamp[r[i + 1]])
  {
    if forall i | 0 <= i < |r| - 1 :: Before(stamp[r[i]], stamp[r[i + 1]]) {
      BeforeChain(stamp, r, |r| - 1);
      assert false;
    }
  }

  lemma {:induction false} BeforeChain(stamp: seq<Stamp>, r: seq<int>, k: int)
    requires 1 <= k < |r| && forall i | 0 <= i < |r| :: 0 <= r[i] < |stamp|
    requires forall i | 0 <= i < k :: Before(stamp[r[i]], stamp[r[i + 1]])
    ensures Before(stamp[r[0]], stamp[r[k]])
    decreases k
  {
    if k > 1 {
      BeforeChain(stamp, r, k - 1);
      assert Before(stamp[r[k - 1]], stamp[r[k]]);
    }
  }

  /** The parent edges of the reversed chain, in order. */
  ghost function ChainEdges(pe: seq<int>, r: seq<int>): (p: seq<int>)
    requires |r| >= 1
    ensures |p| == |r| - 1
  {
    seq(|r| - 1, i requires 0 <= i < |r| - 1 => if 0 <= r[i + 1] < |pe| then pe[r[i + 1]] else -1)
  }

  /** Position `i` of the reversed chain is reached from `i - 1` by the
      parent edge of `r[i + 1]`, whose weight the slack bounds. */
  lemma LinkDrop(g: Digraph, dist: seq<int>, parent: seq<int>, tr: Trace, c: seq<int>, i: int)
    requires Sizes(g, dist, parent, tr) && Slack(g, dist, parent, tr)
    requires |c| >= 2 && 0 <= i < |c| - 1 && ChildOf(g, parent, tr.pe, c, |c| - 2 - i)
    ensures Drop(g, dist, tr.stamp, Reverse(c), ChainEdges(tr.pe, Reverse(c)), i)
  {
    var r := Reverse(c);
    var q := |c| - 2 - i;
    assert r[i] == c[q + 1] && r[i + 1] == c[q];
    assert SlackOk(g, dist, parent, tr, c[q]);
  }

  /** A closed parent chain read child first, reversed, runs along parent
      edges whose weights add up to less than zero. */
  lemma NegativeChain(g: Digraph, dist: seq<int>, parent: seq<int>, tr: Trace, c: seq<int>)
    requires Sizes(g, dist, parent, tr) && Slack(g, dist, parent, tr)
    requires |c| >= 2 && c[0] == c[|c| - 1]
    requires forall q | 0 <= q < |c| - 1 :: ChildOf(g, parent, tr.pe, c, q)
    ensures exists p :: AlongEdges(g, Reverse(c), p) && WalkWeight(g.edges, p) < 0
  {
    var r := Reverse(c);
    var p := ChainEdges(tr.pe, r);
    forall i | 0 <= i < |p|
      ensures Drop(g, dist, tr.stamp, r, p, i)
    {
      LinkDrop(g, dist, parent, tr, c, i);
    }
    forall i | 0 <= i < |r|
      ensures 0 <= r[i] < g.n
    {
      if i == 0 {
        assert Drop(g, dist, tr.stamp, r, p, 0);
      } else {
        assert Drop(g, dist, tr.stamp, r, p, i - 1);
      }
    }
    SomeNotBefore(tr.stamp, r);
    DropSum(g, dist, tr.stamp, r, p, |p|);
    assert p[..|p|] == p;
    assert AlongEdges(g, r, p) by {
      forall i | 0 <= i < |p|
        ensures 0 <= p[i] < |g.edges| && g.edges[p[i]].source == r[i] && g.edges[p[i]].target == r[i + 1]
      {
        assert Drop(g, dist, tr.stamp, r, p, i);
      }
    }
  }

  /** Lines 48-63: `n` parent steps from `x`, then the parent cycle through
      the vertex reached, read until it comes back, closed and reversed;
      the parent edges along it weigh less than zero in total. */
  method ReadCycle(g: Digraph, ghost dist: seq<int>, parent: seq<int>, ghost tr: Trace, x0: int) returns (cycle: seq<int>)
    requires Sizes(g, dist, parent, tr) && Parents(g, parent, tr) && Slack(g, dist, parent, tr)
    requires 0 <= x0 < g.n && tr.stamp[x0].pass == g.n - 1
    ensures CycleOfEdges(g, cycle)
    ensures exists p :: AlongEdges(g, cycle, p) && WalkWeight(g.edges, p) < 0
  {
    var n := g.n;
    var x := Climb(g, parent, tr, x0);
    ChainRepeats(g, parent, tr, x0);
    ghost var a: nat, b: nat :| 0 <= a < b <= n && Up(parent, x0, a) == Up(parent, x0, b);
    Periodic(parent, x0, a, b, n);
    var y := x;
    cycle := [];
    ghost var t: nat := 0;
    while true
      invariant t < b - a && y == Up(parent, x0, n + t) && |cycle| == t
      invariant forall q | 0 <= q < t - 1 :: ChildOf(g, parent, tr.pe, cycle, q)
      invariant t == 0 ==> y == x
      invariant t > 0 ==> cycle[0] == x && Linked(g, parent, tr.pe, cycle[t - 1]) && y == parent[cycle[t - 1]]
      decreases b - a - t
    {
      OnLoop(g, parent, tr, x0, a, b, n + t);
      ChainAppend(g, parent, tr.pe, cycle, y);
      cycle := cycle + [y];
      y := parent[y];
      t := t + 1;
      if y == x {
        break;
      }
    }
    ChainAppend(g, parent, tr.pe, cycle, y);
    cycle := cycle + [y];
    ReversedChain(g, parent, tr.pe, cycle);
    NegativeChain(g, dist, parent, tr, cycle);
    cycle := Reverse(cycle);
  }

  /** Lines 49-51: `n` parent steps from `x0`, each to a vertex. */
  method Climb(g: Digraph, parent: seq<int>, ghost tr: Trace, x0: int) returns (x: int)
    requires Valid(g) && |parent| == g.n && |tr.pe| == g.n && |tr.stamp| == g.n && Parents(g, parent, tr)
    requires 0 <= x0 < g.n && tr.stamp[x0].pass == g.n - 1
    ensures x == Up(parent, x0, g.n) && 0 <= x < g.n
  {
    x := x0;
    var k := 0;
    while k < g.n
      invariant 0 <= k <= g.n && x == Up(parent, x0, k) && 0 <= x < g.n
    {
      UpChain(g, parent, tr, x0, k);
      x := parent[x];
      k := k + 1;
    }
  }

  /** Appending the parent of the last vertex of a chain keeps it a chain. */
  lemma ChainAppend(g: Digraph, parent: seq<int>, pe: seq<int>, c: seq<int>, y: int)
    requires |parent| == g.n && |pe| == g.n
    requires forall q | 0 <= q < |c| - 1 :: ChildOf(g, parent, pe, c, q)
    requires |c| > 0 ==> Linked(g, parent, pe, c[|c| - 1]) && y == parent[c[|c| - 1]]
    ensures forall q | 0 <= q < |c + [y]| - 1 :: ChildOf(g, parent, pe, c + [y], q)
  {
    var c' := c + [y];
    forall q | 0 <= q < |c'| - 1
      ensures ChildOf(g, parent, pe, c', q)
    {
      if q < |c| - 1 {
        assert ChildOf(g, parent, pe, c, q);
      }
    }
  }

  /** Lines 35-38 on their own: lower the target through edge `j` if that
      is shorter, recording the parent and the vertex. */
  method Relax(g: Digraph, i: int, j: int, dist0: seq<int>, parent0: seq<int>, x0: int, ghost tr0: Trace)
    returns (dist: seq<int>, parent: seq<int>, x: int, ghost tr: Trace)
    requires Sizes(g, dist0, parent0, tr0) && 0 <= j < |g.edges|
    ensures var e := g.edges[j];
      var lower := dist0[e.target] > dist0[e.source] + e.weight;
      && |dist| == |dist0| && |parent| == |parent0|
      && dist[e.target] == (if lower then dist0[e.source] + e.weight else dist0[e.target])
      && dist[e.target] <= dist0[e.target]
      && parent[e.target] == (if lower then e.source else parent0[e.target])
      && x == (if lower then e.target else x0)
      && forall v | 0 <= v < |dist0| && v != e.target :: dist[v] == dist0[v] && parent[v] == parent0[v]
    ensures Step(g, i, j, dist0, parent0, x0, tr0, dist, parent, x, tr)
  {
    var e := g.edges[j];
    dist, parent, x, tr := dist0, parent0, x0, tr0;
    if dist[e.target] > dist[e.source] + e.weight {
      tr := Trace(tr.stamp[e.target := Stamp(i, j)], tr.pe[e.target := j],
                  tr.wit[e.target := tr.wit[e.source] + [j]], tr.from[e.target := tr.from[e.source]],
                  tr.pd[e.target := dist[e.source]]);
      dist := dist[e.target := dist[e.source] + e.weight];
      parent := parent[e.target := e.source];
      x := e.target;
    }
  }

  /** The look at edge `j` of pass `i` (lines 35-38). */
  method LookAt(g: Digraph, i: int, j: int, dist0: seq<int>, parent0: seq<int>, x0: int, ghost tr0: Trace)
    returns (dist: seq<int>, parent: seq<int>, x: int, ghost tr: Trace)
    requires Inv(g, dist0, parent0, x0, tr0, i, j) && j < |g.edges|
    ensures Bounded(g, dist, i) && BoundedBefore(g, dist, i + 1, j + 1) && Quiet(g, dist, x, i)
    ensures Inv(g, dist, parent, x, tr, i, j + 1)
  {
    dist, parent, x, tr := Relax(g, i, j, dist0, parent0, x0, tr0);
    StepKeeps(g, i, j, dist0, parent0, x0, tr0, dist, parent, x, tr);
  }

  /** One pass over the edge list (lines 33-40). */
  method Pass(g: Digraph, i: int, dist0: seq<int>, parent0: seq<int>, ghost tr0: Trace)
    returns (dist: seq<int>, parent: seq<int>, x: int, ghost tr: Trace)
    requires Inv(g, dist0, parent0, -1, tr0, i, 0)
    ensures Bounded(g, dist, i) && BoundedBefore(g, dist, i + 1, |g.edges|) && Quiet(g, dist, x, i)
    ensures Inv(g, dist, parent, x, tr, i, |g.edges|)
  {
    dist, parent, x, tr := dist0, parent0, -1, tr0;
    var j := 0;
    while j < |g.edges|
      invariant Inv(g, dist, parent, x, tr, i, j)
    {
      dist, parent, x, tr := LookAt(g, i, j, dist, parent, x, tr);
      j := j + 1;
    }
  }

  /** `hasNegativeCycle(cycle)` (lines 25-66): reports a cycle exactly when
      some closed walk has negative weight; the reported cycle starts and
      ends at one vertex and runs along edges of negative total weight;
      without one, the caller's `cycle` is left as it was. */
  method Detect(g: Digraph, cycle0: seq<int>) returns (found: bool, cycle: seq<int>)
    requires Valid(g)
    ensures found <==> HasNegativeCycle(g.edges)
    ensures !found ==> cycle == cycle0
    ensures found ==> CycleOfEdges(g, cycle)
    ensures found ==> exists p :: AlongEdges(g, cycle, p) && WalkWeight(g.edges, p) < 0
  {
    var n := g.n;
    var dist := seq(n, _ => 0);
    var parent := seq(n, _ => -1);
    var x := -1;
    ghost var tr := Trace(seq(n, _ => Stamp(-1, 0)), seq(n, _ => 0), seq(n, _ => []), seq(n, v => v), seq(n, _ => 0));
    InitOuter(g, dist, parent, tr);
    var i := 0;
    while i < n
      invariant OuterInv(g, dist, parent, x, tr, i)
    {
      PassStart(g, dist, parent, x, tr, i);
      dist, parent, x, tr := Pass(g, i, dist, parent, tr);
      PassEnd(g, dist, parent, x, tr, i);
      i := i + 1;
    }
    if x == -1 {
      QuietPassPotential(g, dist, parent, tr);
      PotentialExcludesNegativeCycle(g.edges, dist);
      return false, cycle0;
    }
    cycle := ReadCycle(g, dist, parent, tr, x);
    found := true;
  }
}
