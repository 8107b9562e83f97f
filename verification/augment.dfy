/** One augmentation of the min-cost flow engine (the body of the loop in
    `FluxoCustoMinimo::executar`): the bottleneck of the tree path from the
    source to the sink, and the push of that much flow along it, forward
    edges up and their partners down.  The sums below measure a flow: the
    net flow out of a vertex, and the cost of the whole flow counted once on
    each edge of a pair. */
module Augment {
  import opened Dist
  import opened ResidualGraph
  import opened PotentialSearch

  /** The parent pointers left by a search: every reached vertex other than
      the source has a parent that is reached, has a smaller rank, and owns
      a residual edge into it. */
  ghost predicate Parents(g: Graph, s: int, dist: seq<Dist>, pv: seq<int>, pa: seq<int>, rank: seq<nat>)
  {
    && |dist| == |g| && |pv| == |g| && |pa| == |g| && |rank| == |g|
    && 0 <= s < |g| && dist[s].Fin? && pv[s] == -1
    && (forall v | 0 <= v < |g| && dist[v].Fin? && v != s ::
          && 0 <= pv[v] < |g| && dist[pv[v]].Fin? && rank[pv[v]] < rank[v]
          && IsPos(g, pv[v], pa[v]) && g[pv[v]][pa[v]].to == v
          && Residual(g[pv[v]][pa[v]]) > 0)
  }

  lemma TreeParents(g: Graph, pi: seq<int>, s: int, live: set<int>,
                    dist: seq<Dist>, pv: seq<int>, pa: seq<int>, rank: seq<nat>)
    requires ShortestPathTree(g, pi, s, live, dist, pv, pa, rank)
    ensures Parents(g, s, dist, pv, pa, rank)
  {
    forall v | 0 <= v < |g| && dist[v].Fin? && v != s
      ensures 0 <= pv[v] < |g| && dist[pv[v]].Fin? && rank[pv[v]] < rank[v]
      ensures IsPos(g, pv[v], pa[v]) && g[pv[v]][pa[v]].to == v && Residual(g[pv[v]][pa[v]]) > 0
    {
      assert pv[v] != -1;
      assert TreeEdge(g, pi, dist, pv, pa, v);
    }
  }

  /** The least residual capacity on the tree path from the source to `v`;
      `Inf` for the source itself (the path has no edge). */
  ghost function PathBottleneck(g: Graph, s: int, dist: seq<Dist>, pv: seq<int>, pa: seq<int>,
                                rank: seq<nat>, v: int): Dist
    requires Parents(g, s, dist, pv, pa, rank) && 0 <= v < |g| && dist[v].Fin?
    decreases rank[v]
  {
    if v == s then Inf
    else Min(PathBottleneck(g, s, dist, pv, pa, rank, pv[v]), Fin(Residual(g[pv[v]][pa[v]])))
  }

  /** The bottleneck of a path with at least one edge is a positive number
      no larger than the residual capacity of the edge into `v`, and no
      larger than the bottleneck of the path to the parent. */
  lemma {:induction false} PathBottleneckBounds(g: Graph, s: int, dist: seq<Dist>, pv: seq<int>, pa: seq<int>,
                                                rank: seq<nat>, v: int)
    requires Parents(g, s, dist, pv, pa, rank) && 0 <= v < |g| && dist[v].Fin?
    ensures var b := PathBottleneck(g, s, dist, pv, pa, rank, v);
      && (b.Inf? <==> v == s)
      && (b.Fin? ==> b.v > 0)
      && (v != s ==> b.v <= Residual(g[pv[v]][pa[v]])
                     && !Less(PathBottleneck(g, s, dist, pv, pa, rank, pv[v]), b))
    decreases rank[v]
  {
    if v != s {
      PathBottleneckBounds(g, s, dist, pv, pa, rank, pv[v]);
    }
  }

  /** Lines 34-38 of `executar`: walks the parent pointers from the sink to
      the source taking the minimum residual capacity; starts from the
      `INT_MAX` sentinel, which survives only when the sink is the source. */
  method Bottleneck(g: Graph, s: int, t: int, dist: seq<Dist>, pv: seq<int>, pa: seq<int>,
                    ghost rank: seq<nat>) returns (b: Dist)
    requires Parents(g, s, dist, pv, pa, rank) && 0 <= t < |g| && dist[t].Fin?
    ensures b == PathBottleneck(g, s, dist, pv, pa, rank, t)
  {
    b := Inf;
    var v := t;
    while v != s
      invariant 0 <= v < |g| && dist[v].Fin?
      invariant Min(b, PathBottleneck(g, s, dist, pv, pa, rank, v)) == PathBottleneck(g, s, dist, pv, pa, rank, t)
      decreases rank[v]
    {
      var r := Fin(Residual(g[pv[v]][pa[v]]));
      MinRegroup(b, PathBottleneck(g, s, dist, pv, pa, rank, pv[v]), r);
      b := Min(b, r);
      v := pv[v];
    }
  }

  lemma MinRegroup(a: Dist, b: Dist, c: Dist)
    ensures Min(a, Min(b, c)) == Min(Min(a, c), b)
  {
  }

  /** The flow carried by the edges of one adjacency list: the net flow out
      of its vertex, since a reverse edge carries the negated flow. */
  function FlowSum(row: seq<Edge>): int
  {
    if |row| == 0 then 0 else FlowSum(row[..|row| - 1]) + row[|row| - 1].flow
  }

  /** The total capacity of the edges of one adjacency list. */
  function CapSum(row: seq<Edge>): int
  {
    if |row| == 0 then 0 else CapSum(row[..|row| - 1]) + row[|row| - 1].cap
  }

  /** `flow * cost` summed over one adjacency list. */
  function RowCost(row: seq<Edge>): int
  {
    if |row| == 0 then 0 else RowCost(row[..|row| - 1]) + row[|row| - 1].flow * row[|row| - 1].cost
  }

  /** `flow * cost` summed over every stored edge: twice the cost of the
      flow, since an edge and its partner contribute the same amount. */
  function TotalCost(g: Graph): int
  {
    if |g| == 0 then 0 else TotalCost(g[..|g| - 1]) + RowCost(g[|g| - 1])
  }

  /** Changing the edge at `i` changes the sums by exactly its differences. */
  lemma {:induction false} RowUpdate(row: seq<Edge>, i: int, e: Edge)
    requires 0 <= i < |row|
    ensures FlowSum(row[i := e]) == FlowSum(row) - row[i].flow + e.flow
    ensures CapSum(row[i := e]) == CapSum(row) - row[i].cap + e.cap
    ensures RowCost(row[i := e]) == RowCost(row) - row[i].flow * row[i].cost + e.flow * e.cost
    decreases |row|
  {
    var last := |row| - 1;
    if i < last {
      assert row[i := e][..last] == row[..last][i := e];
      RowUpdate(row[..last], i, e);
    } else {
      assert row[i := e][..last] == row[..last];
    }
  }

  lemma {:induction false} TotalUpdate(g: Graph, u: int, row: seq<Edge>)
    requires 0 <= u < |g|
    ensures TotalCost(g[u := row]) == TotalCost(g) - RowCost(g[u]) + RowCost(row)
    decreases |g|
  {
    var last := |g| - 1;
    if u < last {
      assert g[u := row][..last] == g[..last][u := row];
      TotalUpdate(g[..last], u, row);
    } else {
      assert g[u := row][..last] == g[..last];
    }
  }

  /** With every flow within its capacity the list still has room for
      `CapSum - FlowSum >= 0` units. */
  lemma {:induction false} FlowWithinCap(row: seq<Edge>)
    requires forall i | 0 <= i < |row| :: row[i].flow <= row[i].cap
    ensures FlowSum(row) <= CapSum(row)
    decreases |row|
  {
    if |row| > 0 {
      FlowWithinCap(row[..|row| - 1]);
    }
  }

  /** Without flow the sums vanish. */
  lemma {:induction false} ZeroFlowSums(g: Graph)
    requires ZeroFlow(g)
    ensures TotalCost(g) == 0
    ensures forall u | 0 <= u < |g| :: FlowSum(g[u]) == 0
    decreases |g|
  {
    if |g| > 0 {
      var last := |g| - 1;
      assert ZeroFlow(g[..last]);
      ZeroFlowSums(g[..last]);
      ZeroRow(g[last]);
      forall u | 0 <= u < |g|
        ensures FlowSum(g[u]) == 0
      {
        ZeroRow(g[u]);
      }
    }
  }

  lemma {:induction false} ZeroRow(row: seq<Edge>)
    requires forall i | 0 <= i < |row| :: row[i].flow == 0
    ensures FlowSum(row) == 0 && RowCost(row) == 0
    decreases |row|
  {
    if |row| > 0 {
      ZeroRow(row[..|row| - 1]);
    }
  }

  /** The flow on the edges of one list whose head lies in `R`. */
  function FlowInto(row: seq<Edge>, R: set<int>): int
  {
    if |row| == 0 then 0
    else FlowInto(row[..|row| - 1], R) + (if row[|row| - 1].to in R then row[|row| - 1].flow else 0)
  }

  /** The flow on the edges with both ends in `R`. */
  ghost function InnerFlow(g: Graph, R: set<int>): int
  {
    if |g| == 0 then 0
    else InnerFlow(g[..|g| - 1], R) + (if |g| - 1 in R then FlowInto(g[|g| - 1], R) else 0)
  }

  /** Inside every vertex set the flows cancel: what an edge carries its
      partner carries back, and self-loops carry nothing. */
  ghost predicate Balanced(g: Graph)
  {
    forall R: set<int> :: InnerFlow(g, R) == 0
  }

  lemma {:induction false} FlowIntoUpdate(row: seq<Edge>, i: int, e: Edge, R: set<int>)
    requires 0 <= i < |row| && e.to == row[i].to
    ensures FlowInto(row[i := e], R) == FlowInto(row, R) + (if e.to in R then e.flow - row[i].flow else 0)
    decreases |row|
  {
    var last := |row| - 1;
    if i < last {
      assert row[i := e][..last] == row[..last][i := e];
      FlowIntoUpdate(row[..last], i, e, R);
    } else {
      assert row[i := e][..last] == row[..last];
    }
  }

  lemma {:induction false} InnerUpdate(g: Graph, u: int, row: seq<Edge>, R: set<int>)
    requires 0 <= u < |g|
    ensures InnerFlow(g[u := row], R)
         == InnerFlow(g, R) + (if u in R then FlowInto(row, R) - FlowInto(g[u], R) else 0)
    decreases |g|
  {
    var last := |g| - 1;
    if u < last {
      assert g[u := row][..last] == g[..last][u := row];
      InnerUpdate(g[..last], u, row, R);
    } else {
      assert g[u := row][..last] == g[..last];
    }
  }

  lemma {:induction false} ZeroInto(row: seq<Edge>, R: set<int>)
    requires forall i | 0 <= i < |row| :: row[i].flow == 0
    ensures FlowInto(row, R) == 0
    decreases |row|
  {
    if |row| > 0 {
      ZeroInto(row[..|row| - 1], R);
    }
  }

  lemma {:induction false} ZeroInner(g: Graph, R: set<int>)
    requires ZeroFlow(g)
    ensures InnerFlow(g, R) == 0
    decreases |g|
  {
    if |g| > 0 {
      var last := |g| - 1;
      assert ZeroFlow(g[..last]);
      ZeroInner(g[..last], R);
      ZeroInto(g[last], R);
    }
  }

  /** A graph without flow is balanced. */
  lemma ZeroBalanced(g: Graph)
    requires ZeroFlow(g)
    ensures Balanced(g)
  {
    forall R: set<int>
      ensures InnerFlow(g, R) == 0
    {
      ZeroInner(g, R);
    }
  }

  /** Lines 43-45: `aresta.fluxo += b` on the edge `h[p][i]`, then
      `h[v][aresta.aresta_reversa].fluxo -= b`. */
  function PushEdge(h: Graph, p: int, i: int, v: int, b: int): Graph
    requires IsPos(h, p, i) && 0 <= v < |h| && 0 <= h[p][i].rev < |h[v]|
  {
    var e := h[p][i];
    var h1 := h[p := h[p][i := e.(flow := e.flow + b)]];
    var q := h1[v][e.rev];
    h1[v := h1[v][e.rev := q.(flow := q.flow - b)]]
  }

  /** Pushing along an edge that is not a self-loop keeps a graph balanced:
      inside any vertex set, the edge and its partner are both in or both
      out, and their changes cancel. */
  lemma PushEdgeBalanced(h: Graph, p: int, i: int, v: int, b: int)
    requires WellFormed(h) && IsPos(h, p, i) && h[p][i].to == v && p != v
    requires Balanced(h)
    ensures 0 <= v < |h| && 0 <= h[p][i].rev < |h[v]|
    ensures Balanced(PushEdge(h, p, i, v, b))
  {
    assert EdgeOk(h, p, i);
    var e := h[p][i];
    var h1 := h[p := h[p][i := e.(flow := e.flow + b)]];
    var q := h1[v][e.rev];
    assert q == h[v][e.rev] && q.to == p;
    forall R: set<int>
      ensures InnerFlow(PushEdge(h, p, i, v, b), R) == 0
    {
      FlowIntoUpdate(h[p], i, e.(flow := e.flow + b), R);
      InnerUpdate(h, p, h[p][i := e.(flow := e.flow + b)], R);
      FlowIntoUpdate(h1[v], e.rev, q.(flow := q.flow - b), R);
      InnerUpdate(h1, v, h1[v][e.rev := q.(flow := q.flow - b)], R);
      assert InnerFlow(h, R) == 0;
    }
  }

  /** On an edge that is not a self-loop the push touches exactly the edge
      and its partner. */
  lemma PushEdgeRows(h: Graph, p: int, i: int, v: int, b: int, r: Graph)
    requires IsPos(h, p, i) && 0 <= v < |h| && 0 <= h[p][i].rev < |h[v]| && p != v
    requires r == PushEdge(h, p, i, v, b)
    ensures |r| == |h|
    ensures r[p] == h[p][i := h[p][i].(flow := h[p][i].flow + b)]
    ensures r[v] == h[v][h[p][i].rev := h[v][h[p][i].rev].(flow := h[v][h[p][i].rev].flow - b)]
    ensures forall x | 0 <= x < |h| && x != p && x != v :: r[x] == h[x]
  {
  }

  /** Every tree edge is tight for the new potentials `pi2`: its cost is the
      difference of the potentials of its ends. */
  ghost predicate TreeTight(g: Graph, pi2: seq<int>, s: int, dist: seq<Dist>, pv: seq<int>, pa: seq<int>, rank: seq<nat>)
    requires Parents(g, s, dist, pv, pa, rank)
  {
    && |pi2| == |g|
    && forall v | 0 <= v < |g| && dist[v].Fin? && v != s ::
         g[pv[v]][pa[v]].cost == pi2[v] - pi2[pv[v]]
  }

  /** The vertices on the part of the path still to be pushed. */
  ghost predicate PushAt(g: Graph, s: int, dist: seq<Dist>, pv: seq<int>, pa: seq<int>, rank: seq<nat>,
                         b: int, v: int)
  {
    && Parents(g, s, dist, pv, pa, rank)
    && 0 <= v < |g| && dist[v].Fin? && b > 0
    && (v != s ==> var pb := PathBottleneck(g, s, dist, pv, pa, rank, v); pb.Fin? && b <= pb.v)
  }

  /** Only tails of pushed edges, all of rank at least `rank[v]`, gained flow. */
  ghost predicate PushBound(g: Graph, h: Graph, rank: seq<nat>, v: int)
    requires |rank| == |g| && 0 <= v < |g| && SameShape(g, h)
  {
    forall a, k | IsPos(h, a, k) && rank[a] < rank[v] :: h[a][k].flow <= g[a][k].flow
  }

  /** So far `t` has lost `b` units of net outflow and `v` has gained them. */
  ghost predicate PushSums(g: Graph, h: Graph, t: int, b: int, v: int)
    requires SameShape(g, h)
  {
    forall x | 0 <= x < |g| ::
      FlowSum(h[x]) == FlowSum(g[x]) + (if x == v then b else 0) - (if x == t then b else 0)
  }

  /** The edge pushed next: from the parent `p` of `v`, at index `i`,
      with its partner at `j` in `v`'s list; it has room for `b` more units. */
  lemma PushTarget(g: Graph, h: Graph, s: int, dist: seq<Dist>, pv: seq<int>, pa: seq<int>,
                   rank: seq<nat>, b: int, v: int)
    requires WellFormed(h) && SameShape(g, h)
    requires PushAt(g, s, dist, pv, pa, rank, b, v) && v != s
    requires PushBound(g, h, rank, v)
    ensures var p, i := pv[v], pa[v];
      && 0 <= p < |g| && p != v && rank[p] < rank[v] && IsPos(h, p, i) && h[p][i].to == v
      && IsPos(h, v, h[p][i].rev) && h[p][i].flow + b <= h[p][i].cap
      && h[v][h[p][i].rev].to == p && h[v][h[p][i].rev].rev == i
  {
    var p, i := pv[v], pa[v];
    PathBottleneckBounds(g, s, dist, pv, pa, rank, v);
    assert EdgeOk(h, p, i);
  }

  lemma PushStepShape(g: Graph, h: Graph, r: Graph, s: int, dist: seq<Dist>, pv: seq<int>, pa: seq<int>,
                      rank: seq<nat>, b: int, v: int)
    requires WellFormed(h) && SameShape(g, h)
    requires PushAt(g, s, dist, pv, pa, rank, b, v) && v != s
    requires PushBound(g, h, rank, v)
    requires IsPos(h, pv[v], pa[v]) && 0 <= h[pv[v]][pa[v]].rev < |h[v]|
    requires r == PushEdge(h, pv[v], pa[v], v, b)
    ensures WellFormed(r) && SameShape(g, r)
  {
    PushTarget(g, h, s, dist, pv, pa, rank, b, v);
    var p, i := pv[v], pa[v];
    var j := h[p][i].rev;
    PushEdgeRows(h, p, i, v, b, r);
    forall x, k | IsPos(r, x, k)
      ensures EdgeOk(r, x, k)
    {
      assert EdgeOk(h, x, k);
      if (x == p && k == i) || (x == v && k == j) {
      } else {
        assert r[x][k] == h[x][k];
        var e := h[x][k];
        if e.to != x {
          assert !(e.to == p && e.rev == i);
          assert !(e.to == v && e.rev == j);
          assert r[e.to][e.rev] == h[e.to][e.rev];
        }
      }
    }
  }

  lemma PushStepBound(g: Graph, h: Graph, r: Graph, s: int, dist: seq<Dist>, pv: seq<int>, pa: seq<int>,
                      rank: seq<nat>, b: int, v: int)
    requires WellFormed(h) && SameShape(g, h) && SameShape(g, r)
    requires PushAt(g, s, dist, pv, pa, rank, b, v) && v != s
    requires PushBound(g, h, rank, v)
    requires IsPos(h, pv[v], pa[v]) && 0 <= h[pv[v]][pa[v]].rev < |h[v]|
    requires r == PushEdge(h, pv[v], pa[v], v, b)
    ensures PushBound(g, r, rank, pv[v])
  {
    PushTarget(g, h, s, dist, pv, pa, rank, b, v);
    PushEdgeRows(h, pv[v], pa[v], v, b, r);
  }

  /** A push moves `b` units of net outflow from `v` to `p`. */
  lemma PushEdgeSums(h: Graph, p: int, i: int, v: int, b: int, r: Graph)
    requires IsPos(h, p, i) && p != v && 0 <= v < |h| && IsPos(h, v, h[p][i].rev)
    requires r == PushEdge(h, p, i, v, b)
    ensures |r| == |h|
    ensures FlowSum(r[p]) == FlowSum(h[p]) + b && FlowSum(r[v]) == FlowSum(h[v]) - b
    ensures forall x | 0 <= x < |h| && x != p && x != v :: r[x] == h[x]
  {
    PushIsTwoShifts(h, p, i, v, b);
    var h1 := Shift(h, p, i, b);
    TotalShift(h, p, i, b);
    TotalShift(h1, v, h[p][i].rev, -b);
  }

  lemma PushStepSums(g: Graph, h: Graph, r: Graph, s: int, t: int, dist: seq<Dist>, pv: seq<int>, pa: seq<int>,
                     rank: seq<nat>, b: int, v: int)
    requires WellFormed(h) && SameShape(g, h) && SameShape(g, r)
    requires PushAt(g, s, dist, pv, pa, rank, b, v) && v != s
    requires PushBound(g, h, rank, v) && PushSums(g, h, t, b, v)
    requires IsPos(h, pv[v], pa[v]) && 0 <= h[pv[v]][pa[v]].rev < |h[v]|
    requires r == PushEdge(h, pv[v], pa[v], v, b)
    ensures PushSums(g, r, t, b, pv[v])
  {
    PushTarget(g, h, s, dist, pv, pa, rank, b, v);
    var p := pv[v];
    PushEdgeSums(h, p, pa[v], v, b, r);
    forall x | 0 <= x < |g|
      ensures FlowSum(r[x]) == FlowSum(g[x]) + (if x == p then b else 0) - (if x == t then b else 0)
    {
      if x != p && x != v {
        assert r[x] == h[x];
      }
    }
  }

  /** The cost counted so far: `b` units on the pushed part of the path,
      whose cost is the difference of the new potentials of its ends. */
  ghost predicate PushCost(g: Graph, h: Graph, pi2: seq<int>, t: int, b: int, v: int)
    requires |pi2| == |g| && 0 <= t < |g| && 0 <= v < |g|
  {
    TotalCost(h) == TotalCost(g) + 2 * b * (pi2[t] - pi2[v])
  }

  lemma Distribute(a: int, x: int, y: int)
    ensures a * x + a * y == a * (x + y)
    ensures (x + y) * a == x * a + y * a
  {
  }

  /** Adding `d` to the flow of one edge adds `d * cost` to its list's cost. */
  lemma RowShift(row: seq<Edge>, i: int, d: int)
    requires 0 <= i < |row|
    ensures RowCost(row[i := row[i].(flow := row[i].flow + d)]) == RowCost(row) + d * row[i].cost
  {
    RowUpdate(row, i, row[i].(flow := row[i].flow + d));
    Distribute(row[i].cost, row[i].flow, d);
  }

  lemma NegNeg(b: int, c: int, qc: int)
    requires qc == -c
    ensures (-b) * qc == b * c
    ensures 2 * b * c == b * c + b * c
  {
  }

  /** Adding `d` to the flow of the edge `h[u][k]`. */
  function Shift(h: Graph, u: int, k: int, d: int): Graph
    requires IsPos(h, u, k)
  {
    h[u := h[u][k := h[u][k].(flow := h[u][k].flow + d)]]
  }

  lemma TotalShift(h: Graph, u: int, k: int, d: int)
    requires IsPos(h, u, k)
    ensures TotalCost(Shift(h, u, k, d)) == TotalCost(h) + d * h[u][k].cost
    ensures FlowSum(Shift(h, u, k, d)[u]) == FlowSum(h[u]) + d
  {
    RowShift(h[u], k, d);
    RowUpdate(h[u], k, h[u][k].(flow := h[u][k].flow + d));
    TotalUpdate(h, u, Shift(h, u, k, d)[u]);
  }

  /** A push is two shifts: `+b` on the edge, `-b` on its partner. */
  lemma PushIsTwoShifts(h: Graph, p: int, i: int, v: int, b: int)
    requires IsPos(h, p, i) && p != v && 0 <= v < |h| && IsPos(h, v, h[p][i].rev)
    ensures IsPos(Shift(h, p, i, b), v, h[p][i].rev)
    ensures PushEdge(h, p, i, v, b) == Shift(Shift(h, p, i, b), v, h[p][i].rev, -b)
    ensures Shift(h, p, i, b)[v] == h[v]
  {
  }

  /** Pushing `b` units across the edge `h[p][i]` and back across its
      partner adds `2 * b * cost` to the total. */
  lemma PushEdgeCost(h: Graph, p: int, i: int, v: int, b: int, r: Graph)
    requires IsPos(h, p, i) && p != v && 0 <= v < |h| && IsPos(h, v, h[p][i].rev)
    requires h[v][h[p][i].rev].cost == -h[p][i].cost
    requires r == PushEdge(h, p, i, v, b)
    ensures TotalCost(r) == TotalCost(h) + 2 * b * h[p][i].cost
  {
    var j := h[p][i].rev;
    PushIsTwoShifts(h, p, i, v, b);
    var h1 := Shift(h, p, i, b);
    TotalShift(h, p, i, b);
    TotalShift(h1, v, j, -b);
    NegNeg(b, h[p][i].cost, h1[v][j].cost);
  }

  lemma PushStepCost(g: Graph, h: Graph, r: Graph, pi2: seq<int>, s: int, t: int,
                     dist: seq<Dist>, pv: seq<int>, pa: seq<int>, rank: seq<nat>, b: int, v: int)
    requires WellFormed(h) && SameShape(g, h) && 0 <= t < |g|
    requires PushAt(g, s, dist, pv, pa, rank, b, v) && v != s
    requires TreeTight(g, pi2, s, dist, pv, pa, rank)
    requires PushBound(g, h, rank, v) && PushCost(g, h, pi2, t, b, v)
    requires IsPos(h, pv[v], pa[v]) && 0 <= h[pv[v]][pa[v]].rev < |h[v]|
    requires r == PushEdge(h, pv[v], pa[v], v, b)
    ensures PushCost(g, r, pi2, t, b, pv[v])
  {
    PushTarget(g, h, s, dist, pv, pa, rank, b, v);
    var p, i := pv[v], pa[v];
    assert EdgeOk(h, p, i);
    PushEdgeCost(h, p, i, v, b, r);
    var c := h[p][i].cost;
    assert c == pi2[v] - pi2[p];
    Distribute(2 * b, pi2[t] - pi2[v], c);
  }

  lemma PushStepFeasible(g: Graph, h: Graph, r: Graph, pi2: seq<int>, live: set<int>, s: int,
                         dist: seq<Dist>, pv: seq<int>, pa: seq<int>, rank: seq<nat>, b: int, v: int)
    requires WellFormed(h) && SameShape(g, h) && SameShape(g, r)
    requires PushAt(g, s, dist, pv, pa, rank, b, v) && v != s
    requires TreeTight(g, pi2, s, dist, pv, pa, rank)
    requires forall x | 0 <= x < |g| && dist[x].Fin? :: x in live
    requires PushBound(g, h, rank, v) && Feasible(h, pi2, live)
    requires IsPos(h, pv[v], pa[v]) && 0 <= h[pv[v]][pa[v]].rev < |h[v]|
    requires r == PushEdge(h, pv[v], pa[v], v, b)
    ensures Feasible(r, pi2, live)
  {
    PushTarget(g, h, s, dist, pv, pa, rank, b, v);
    var p, i := pv[v], pa[v];
    var j := h[p][i].rev;
    assert EdgeOk(h, p, i);
    PushEdgeRows(h, p, i, v, b, r);
    forall u, k | u in live && HeadInRange(r, u, k) && Residual(r[u][k]) > 0
      ensures r[u][k].to in live && ReducedCost(r, pi2, u, k) >= 0
    {
      if u == v && k == j {
        assert r[u][k].to == p;
      } else {
        assert Residual(h[u][k]) >= Residual(r[u][k]);
        assert HeadInRange(h, u, k);
      }
    }
  }

  /** Everything the push loop keeps, with `v` the vertex whose incoming tree
      edge is pushed next. */
  ghost predicate PushInv(g: Graph, h: Graph, pi2: seq<int>, live: set<int>, s: int, t: int,
                          dist: seq<Dist>, pv: seq<int>, pa: seq<int>, rank: seq<nat>, b: int, v: int)
  {
    && WellFormed(h) && SameShape(g, h) && 0 <= t < |g|
    && PushAt(g, s, dist, pv, pa, rank, b, v)
    && TreeTight(g, pi2, s, dist, pv, pa, rank)
    && (forall x | 0 <= x < |g| && dist[x].Fin? :: x in live)
    && PushBound(g, h, rank, v) && PushSums(g, h, t, b, v) && PushCost(g, h, pi2, t, b, v)
    && Feasible(h, pi2, live)
  }

  lemma PushStep(g: Graph, h: Graph, pi2: seq<int>, live: set<int>, s: int, t: int,
                 dist: seq<Dist>, pv: seq<int>, pa: seq<int>, rank: seq<nat>, b: int, v: int)
    requires PushInv(g, h, pi2, live, s, t, dist, pv, pa, rank, b, v) && v != s
    ensures IsPos(h, pv[v], pa[v]) && 0 <= h[pv[v]][pa[v]].rev < |h[v]|
    ensures rank[pv[v]] < rank[v]
    ensures PushInv(g, PushEdge(h, pv[v], pa[v], v, b), pi2, live, s, t, dist, pv, pa, rank, b, pv[v])
  {
    PushTarget(g, h, s, dist, pv, pa, rank, b, v);
    var r := PushEdge(h, pv[v], pa[v], v, b);
    PushStepShape(g, h, r, s, dist, pv, pa, rank, b, v);
    PushStepBound(g, h, r, s, dist, pv, pa, rank, b, v);
    PushStepSums(g, h, r, s, t, dist, pv, pa, rank, b, v);
    PushStepCost(g, h, r, pi2, s, t, dist, pv, pa, rank, b, v);
    PushStepFeasible(g, h, r, pi2, live, s, dist, pv, pa, rank, b, v);
    PathBottleneckBounds(g, s, dist, pv, pa, rank, v);
    PathBottleneckBounds(g, s, dist, pv, pa, rank, pv[v]);
  }

  /** The change a push along the tree path from the source to `v` makes
      to the flow of edge `g[x][k]`: `+b` for each edge of the path, `-b`
      for each partner of one. */
  ghost function PathDelta(g: Graph, s: int, dist: seq<Dist>, pv: seq<int>, pa: seq<int>, rank: seq<nat>,
                           b: int, v: int, x: int, k: int): int
    requires Parents(g, s, dist, pv, pa, rank) && 0 <= v < |g| && dist[v].Fin?
    decreases rank[v]
  {
    if v == s then 0
    else
      var p, i := pv[v], pa[v];
      PathDelta(g, s, dist, pv, pa, rank, b, p, x, k)
        + (if x == p && k == i then b else 0) - (if x == v && k == g[p][i].rev then b else 0)
  }

  /** Edge `g[x][k]` has so far received the pushes of the path between `v`
      and `t`, and nothing else about it has changed. */
  ghost predicate FlowAt(g: Graph, h: Graph, s: int, dist: seq<Dist>, pv: seq<int>, pa: seq<int>, rank: seq<nat>,
                         b: int, t: int, v: int, x: int, k: int)
    requires Parents(g, s, dist, pv, pa, rank) && 0 <= t < |g| && dist[t].Fin? && 0 <= v < |g| && dist[v].Fin?
    requires IsPos(g, x, k)
  {
    IsPos(h, x, k)
    && h[x][k] == g[x][k].(flow := g[x][k].flow + PathDelta(g, s, dist, pv, pa, rank, b, t, x, k)
                                               - PathDelta(g, s, dist, pv, pa, rank, b, v, x, k))
  }

  ghost predicate PushFlows(g: Graph, h: Graph, s: int, dist: seq<Dist>, pv: seq<int>, pa: seq<int>, rank: seq<nat>,
                            b: int, t: int, v: int)
    requires Parents(g, s, dist, pv, pa, rank) && 0 <= t < |g| && dist[t].Fin? && 0 <= v < |g| && dist[v].Fin?
  {
    forall x, k | IsPos(g, x, k) :: FlowAt(g, h, s, dist, pv, pa, rank, b, t, v, x, k)
  }

  /** Pushing the edge into `v` adds its own share of the path's change. */
  lemma PushStepFlows(g: Graph, h: Graph, s: int, t: int, dist: seq<Dist>, pv: seq<int>, pa: seq<int>,
                      rank: seq<nat>, b: int, v: int)
    requires Parents(g, s, dist, pv, pa, rank) && 0 <= t < |g| && dist[t].Fin? && 0 <= v < |g| && dist[v].Fin?
    requires v != s && |h| == |g| && PushFlows(g, h, s, dist, pv, pa, rank, b, t, v)
    requires IsPos(h, pv[v], pa[v]) && 0 <= h[pv[v]][pa[v]].rev < |h[v]|
    ensures PushFlows(g, PushEdge(h, pv[v], pa[v], v, b), s, dist, pv, pa, rank, b, t, pv[v])
  {
    var p, i := pv[v], pa[v];
    var r := PushEdge(h, p, i, v, b);
    PushEdgeRows(h, p, i, v, b, r);
    assert FlowAt(g, h, s, dist, pv, pa, rank, b, t, v, p, i);
    forall x, k | IsPos(g, x, k)
      ensures FlowAt(g, r, s, dist, pv, pa, rank, b, t, p, x, k)
    {
      FlowStep(g, h, r, s, t, dist, pv, pa, rank, b, v, x, k);
    }
  }

  lemma FlowStep(g: Graph, h: Graph, r: Graph, s: int, t: int, dist: seq<Dist>, pv: seq<int>, pa: seq<int>,
                 rank: seq<nat>, b: int, v: int, x: int, k: int)
    requires Parents(g, s, dist, pv, pa, rank) && 0 <= t < |g| && dist[t].Fin? && 0 <= v < |g| && dist[v].Fin?
    requires v != s && |h| == |g| && IsPos(g, x, k)
    requires FlowAt(g, h, s, dist, pv, pa, rank, b, t, v, x, k)
    requires FlowAt(g, h, s, dist, pv, pa, rank, b, t, v, pv[v], pa[v])
    requires IsPos(h, pv[v], pa[v]) && 0 <= h[pv[v]][pa[v]].rev < |h[v]|
    requires |r| == |h|
    requires r[pv[v]] == h[pv[v]][pa[v] := h[pv[v]][pa[v]].(flow := h[pv[v]][pa[v]].flow + b)]
    requires r[v] == h[v][h[pv[v]][pa[v]].rev := h[v][h[pv[v]][pa[v]].rev].(flow := h[v][h[pv[v]][pa[v]].rev].flow - b)]
    requires forall y | 0 <= y < |h| && y != pv[v] && y != v :: r[y] == h[y]
    ensures FlowAt(g, r, s, dist, pv, pa, rank, b, t, pv[v], x, k)
  {
    var p := pv[v];
    if x != p && x != v {
      assert r[x] == h[x];
    }
  }

  /** `w` is a vertex other than the source on the tree path from the
      source to `v`. */
  ghost predicate OnPath(g: Graph, s: int, dist: seq<Dist>, pv: seq<int>, pa: seq<int>, rank: seq<nat>,
                         v: int, w: int)
    requires Parents(g, s, dist, pv, pa, rank) && 0 <= v < |g| && dist[v].Fin?
    decreases rank[v]
  {
    v != s && (w == v || OnPath(g, s, dist, pv, pa, rank, pv[v], w))
  }

  lemma {:induction false} OnPathRank(g: Graph, s: int, dist: seq<Dist>, pv: seq<int>, pa: seq<int>, rank: seq<nat>,
                                      v: int, w: int)
    requires Parents(g, s, dist, pv, pa, rank) && 0 <= v < |g| && dist[v].Fin?
    requires OnPath(g, s, dist, pv, pa, rank, v, w)
    ensures 0 <= w < |g| && dist[w].Fin? && w != s && rank[w] <= rank[v]
    decreases rank[v]
  {
    if w != v {
      OnPathRank(g, s, dist, pv, pa, rank, pv[v], w);
    }
  }

  /** `g[x][k]` is the tree edge into some vertex of the path to `v`. */
  ghost predicate PathEdge(g: Graph, s: int, dist: seq<Dist>, pv: seq<int>, pa: seq<int>, rank: seq<nat>,
                           v: int, x: int, k: int)
    requires Parents(g, s, dist, pv, pa, rank) && 0 <= v < |g| && dist[v].Fin?
  {
    exists w :: 0 <= w < |g| && OnPath(g, s, dist, pv, pa, rank, v, w) && x == pv[w] && k == pa[w]
  }

  /** `g[x][k]` is the partner of the tree edge into some vertex `x` of the
      path to `v`. */
  ghost predicate PartnerEdge(g: Graph, s: int, dist: seq<Dist>, pv: seq<int>, pa: seq<int>, rank: seq<nat>,
                              v: int, x: int, k: int)
    requires Parents(g, s, dist, pv, pa, rank) && 0 <= v < |g| && dist[v].Fin?
  {
    && 0 <= x < |g| && dist[x].Fin? && x != s && OnPath(g, s, dist, pv, pa, rank, v, x)
    && k == g[pv[x]][pa[x]].rev
  }

  /** The tree edge into `v` is not on the path to its own tail. */
  lemma PathEdgeFresh(g: Graph, s: int, dist: seq<Dist>, pv: seq<int>, pa: seq<int>, rank: seq<nat>, v: int)
    requires Parents(g, s, dist, pv, pa, rank) && 0 <= v < |g| && dist[v].Fin? && v != s
    ensures !PathEdge(g, s, dist, pv, pa, rank, pv[v], pv[v], pa[v])
  {
    if PathEdge(g, s, dist, pv, pa, rank, pv[v], pv[v], pa[v]) {
      var w :| 0 <= w < |g| && OnPath(g, s, dist, pv, pa, rank, pv[v], w) && pv[v] == pv[w] && pa[v] == pa[w];
      OnPathRank(g, s, dist, pv, pa, rank, pv[v], w);
      assert false;
    }
  }

  /** One more step up the path adds exactly the tree edge into `v`. */
  lemma PathEdgeStep(g: Graph, s: int, dist: seq<Dist>, pv: seq<int>, pa: seq<int>, rank: seq<nat>,
                     v: int, x: int, k: int)
    requires Parents(g, s, dist, pv, pa, rank) && 0 <= v < |g| && dist[v].Fin? && v != s
    ensures PathEdge(g, s, dist, pv, pa, rank, v, x, k)
        <==> PathEdge(g, s, dist, pv, pa, rank, pv[v], x, k) || (x == pv[v] && k == pa[v])
  {
    if PathEdge(g, s, dist, pv, pa, rank, v, x, k) {
      var w :| 0 <= w < |g| && OnPath(g, s, dist, pv, pa, rank, v, w) && x == pv[w] && k == pa[w];
      if w != v {
        assert OnPath(g, s, dist, pv, pa, rank, pv[v], w);
      }
    }
    if PathEdge(g, s, dist, pv, pa, rank, pv[v], x, k) {
      var w :| 0 <= w < |g| && OnPath(g, s, dist, pv, pa, rank, pv[v], w) && x == pv[w] && k == pa[w];
      assert OnPath(g, s, dist, pv, pa, rank, v, w);
    }
    if x == pv[v] && k == pa[v] {
      assert OnPath(g, s, dist, pv, pa, rank, v, v);
    }
  }

  /** The sum of the path's changes on an edge: `+b` if it is a tree edge
      of the path, `-b` if it is the partner of one. */
  lemma {:induction false} PathDeltaValue(g: Graph, s: int, dist: seq<Dist>, pv: seq<int>, pa: seq<int>, rank: seq<nat>,
                                          b: int, v: int, x: int, k: int)
    requires Parents(g, s, dist, pv, pa, rank) && 0 <= v < |g| && dist[v].Fin?
    ensures PathDelta(g, s, dist, pv, pa, rank, b, v, x, k)
         == (if PathEdge(g, s, dist, pv, pa, rank, v, x, k) then b else 0)
          - (if PartnerEdge(g, s, dist, pv, pa, rank, v, x, k) then b else 0)
    decreases rank[v]
  {
    if v != s {
      var p := pv[v];
      PathDeltaValue(g, s, dist, pv, pa, rank, b, p, x, k);
      PathEdgeStep(g, s, dist, pv, pa, rank, v, x, k);
      PathEdgeFresh(g, s, dist, pv, pa, rank, v);
      if PartnerEdge(g, s, dist, pv, pa, rank, p, x, k) {
        OnPathRank(g, s, dist, pv, pa, rank, p, x);
      }
    }
  }

  /** No edge is both a tree edge of the path and the partner of one. */
  lemma PathPartnerDisjoint(g: Graph, s: int, dist: seq<Dist>, pv: seq<int>, pa: seq<int>, rank: seq<nat>,
                            v: int, x: int, k: int)
    requires WellFormed(g) && Parents(g, s, dist, pv, pa, rank) && 0 <= v < |g| && dist[v].Fin?
    ensures !(PathEdge(g, s, dist, pv, pa, rank, v, x, k) && PartnerEdge(g, s, dist, pv, pa, rank, v, x, k))
  {
    if PathEdge(g, s, dist, pv, pa, rank, v, x, k) && PartnerEdge(g, s, dist, pv, pa, rank, v, x, k) {
      var w :| 0 <= w < |g| && OnPath(g, s, dist, pv, pa, rank, v, w) && x == pv[w] && k == pa[w];
      OnPathRank(g, s, dist, pv, pa, rank, v, w);
      assert false;
    }
  }

  lemma FlowsStart(g: Graph, s: int, t: int, dist: seq<Dist>, pv: seq<int>, pa: seq<int>, rank: seq<nat>, b: int)
    requires Parents(g, s, dist, pv, pa, rank) && 0 <= t < |g| && dist[t].Fin?
    ensures PushFlows(g, g, s, dist, pv, pa, rank, b, t, t)
  {
  }

  /** `h` is `g` with `b` more on every tree edge of the path from `s` to
      `t`, `b` less on each of their partners, and every other edge as it
      was. */
  ghost predicate PushedAlong(g: Graph, h: Graph, s: int, t: int, dist: seq<Dist>, pv: seq<int>, pa: seq<int>,
                              rank: seq<nat>, b: int)
    requires Parents(g, s, dist, pv, pa, rank) && 0 <= t < |g| && dist[t].Fin?
  {
    forall x, k | IsPos(g, x, k) ::
      IsPos(h, x, k) && h[x][k] == g[x][k].(flow := g[x][k].flow
        + (if PathEdge(g, s, dist, pv, pa, rank, t, x, k) then b else 0)
        - (if PartnerEdge(g, s, dist, pv, pa, rank, t, x, k) then b else 0))
  }

  /** At the source, the changes collected along the path are `+b` on its
      tree edges and `-b` on their partners. */
  lemma FlowsEnd(g: Graph, h: Graph, s: int, t: int, dist: seq<Dist>, pv: seq<int>, pa: seq<int>, rank: seq<nat>, b: int)
    requires Parents(g, s, dist, pv, pa, rank) && 0 <= t < |g| && dist[t].Fin?
    requires PushFlows(g, h, s, dist, pv, pa, rank, b, t, s)
    ensures forall x, k | IsPos(g, x, k) ::
      IsPos(h, x, k) && h[x][k] == g[x][k].(flow := g[x][k].flow
        + (if PathEdge(g, s, dist, pv, pa, rank, t, x, k) then b else 0)
        - (if PartnerEdge(g, s, dist, pv, pa, rank, t, x, k) then b else 0))
  {
    forall x, k | IsPos(g, x, k)
      ensures IsPos(h, x, k) && h[x][k] == g[x][k].(flow := g[x][k].flow
        + (if PathEdge(g, s, dist, pv, pa, rank, t, x, k) then b else 0)
        - (if PartnerEdge(g, s, dist, pv, pa, rank, t, x, k) then b else 0))
    {
      assert FlowAt(g, h, s, dist, pv, pa, rank, b, t, s, x, k);
      PathDeltaValue(g, s, dist, pv, pa, rank, b, t, x, k);
    }
  }

  lemma PushStart(g: Graph, pi2: seq<int>, live: set<int>, s: int, t: int,
                  dist: seq<Dist>, pv: seq<int>, pa: seq<int>, rank: seq<nat>, b: int)
    requires WellFormed(g) && |pi2| == |g| && Feasible(g, pi2, live) && 0 <= t < |g|
    requires PushAt(g, s, dist, pv, pa, rank, b, t)
    requires TreeTight(g, pi2, s, dist, pv, pa, rank)
    requires forall x | 0 <= x < |g| && dist[x].Fin? :: x in live
    ensures PushInv(g, g, pi2, live, s, t, dist, pv, pa, rank, b, t)
  {
  }

  /** Lines 41-46 of `executar`: walks the tree path from the sink back to
      the source, adding `b` to the flow of each edge and taking it from the
      edge's partner.  Afterwards the flow is still within capacities and
      antisymmetric, exactly `b` more units leave the source and reach the
      sink with every other vertex balanced as before, the cost grows by `b`
      times the cost of the path, and the potentials still fit every
      residual edge, new reverse edges included. */
  method Push(g: Graph, ghost pi2: seq<int>, ghost live: set<int>, s: int, t: int,
              dist: seq<Dist>, pv: seq<int>, pa: seq<int>, ghost rank: seq<nat>, b: int)
    returns (h: Graph)
    requires WellFormed(g) && |pi2| == |g| && Feasible(g, pi2, live) && 0 <= t < |g|
    requires PushAt(g, s, dist, pv, pa, rank, b, t)
    requires TreeTight(g, pi2, s, dist, pv, pa, rank)
    requires forall x | 0 <= x < |g| && dist[x].Fin? :: x in live
    ensures WellFormed(h) && SameShape(g, h) && Feasible(h, pi2, live)
    ensures forall x | 0 <= x < |g| ::
      FlowSum(h[x]) == FlowSum(g[x]) + (if x == s then b else 0) - (if x == t then b else 0)
    ensures TotalCost(h) == TotalCost(g) + 2 * b * (pi2[t] - pi2[s])
    ensures PushedAlong(g, h, s, t, dist, pv, pa, rank, b)
    ensures Balanced(g) ==> Balanced(h)
  {
    PushStart(g, pi2, live, s, t, dist, pv, pa, rank, b);
    FlowsStart(g, s, t, dist, pv, pa, rank, b);
    h := g;
    var v := t;
    while v != s
      invariant PushInv(g, h, pi2, live, s, t, dist, pv, pa, rank, b, v)
      invariant PushFlows(g, h, s, dist, pv, pa, rank, b, t, v)
      invariant Balanced(g) ==> Balanced(h)
      decreases rank[v]
    {
      PushStep(g, h, pi2, live, s, t, dist, pv, pa, rank, b, v);
      if Balanced(g) {
        PushEdgeBalanced(h, pv[v], pa[v], v, b);
      }
      PushStepFlows(g, h, s, t, dist, pv, pa, rank, b, v);
      h := PushEdge(h, pv[v], pa[v], v, b);
      v := pv[v];
    }
    PushEnd(g, h, pi2, live, s, t, dist, pv, pa, rank, b);
    FlowsEnd(g, h, s, t, dist, pv, pa, rank, b);
  }

  lemma PushEnd(g: Graph, h: Graph, pi2: seq<int>, live: set<int>, s: int, t: int,
                dist: seq<Dist>, pv: seq<int>, pa: seq<int>, rank: seq<nat>, b: int)
    requires PushInv(g, h, pi2, live, s, t, dist, pv, pa, rank, b, s)
    ensures WellFormed(h) && SameShape(g, h) && |pi2| == |h| && Feasible(h, pi2, live)
    ensures forall x | 0 <= x < |g| ::
      FlowSum(h[x]) == FlowSum(g[x]) + (if x == s then b else 0) - (if x == t then b else 0)
    ensures TotalCost(h) == TotalCost(g) + 2 * b * (pi2[t] - pi2[s])
  {
  }
}
