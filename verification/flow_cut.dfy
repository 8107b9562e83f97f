/** The cut side of `FluxoCustoMinimo`: how the value of a flow relates to
    the capacity of the arcs that leave a vertex set holding the source and
    not the sink.  The edges leaving a residual-closed set are saturated and
    the flow inside any set cancels, so the flow value equals the capacity of
    the original arcs leaving the set; and no flow of the arcs, within their
    capacities and conserved at the inner vertices, has a larger value than
    the capacity of any such set. */
module FlowCut {
  import opened ResidualGraph
  import opened Augment

  /** No residual edge leaves `R`: a vertex set closed this way that holds
      the source but not the sink proves there is no augmenting path. */
  ghost predicate Closed(g: Graph, R: set<int>)
  {
    forall u, k | u in R && IsPos(g, u, k) && Residual(g[u][k]) > 0 :: g[u][k].to in R
  }

  /** The flow on the edges of one list whose head lies outside `R`. */
  function FlowOut(row: seq<Edge>, R: set<int>): int
  {
    if |row| == 0 then 0
    else FlowOut(row[..|row| - 1], R) + (if row[|row| - 1].to !in R then row[|row| - 1].flow else 0)
  }

  /** The capacity of the edges of one list whose head lies outside `R`. */
  function CapOut(row: seq<Edge>, R: set<int>): int
  {
    if |row| == 0 then 0
    else CapOut(row[..|row| - 1], R) + (if row[|row| - 1].to !in R then row[|row| - 1].cap else 0)
  }

  /** The net flow out of the vertices of `R`. */
  ghost function SetFlow(g: Graph, R: set<int>): int
  {
    if |g| == 0 then 0
    else SetFlow(g[..|g| - 1], R) + (if |g| - 1 in R then FlowSum(g[|g| - 1]) else 0)
  }

  /** The flow on the edges from `R` to its complement. */
  ghost function OutFlow(g: Graph, R: set<int>): int
  {
    if |g| == 0 then 0
    else OutFlow(g[..|g| - 1], R) + (if |g| - 1 in R then FlowOut(g[|g| - 1], R) else 0)
  }

  /** The capacity of the edges from `R` to its complement.  Reverse edges
      have capacity 0, so only the arcs `adicionar_aresta` was given count. */
  ghost function CutCap(g: Graph, R: set<int>): int
  {
    if |g| == 0 then 0
    else CutCap(g[..|g| - 1], R) + (if |g| - 1 in R then CapOut(g[|g| - 1], R) else 0)
  }

  /** No edge carries more than its capacity. */
  ghost predicate WithinCap(g: Graph)
  {
    forall u, i | IsPos(g, u, i) :: g[u][i].flow <= g[u][i].cap
  }

  lemma WellFormedWithinCap(g: Graph)
    requires WellFormed(g)
    ensures WithinCap(g)
  {
    forall u, i | IsPos(g, u, i)
      ensures g[u][i].flow <= g[u][i].cap
    {
      assert EdgeOk(g, u, i);
    }
  }

  lemma {:induction false} RowSplit(row: seq<Edge>, R: set<int>)
    ensures FlowSum(row) == FlowInto(row, R) + FlowOut(row, R)
    decreases |row|
  {
    if |row| > 0 {
      RowSplit(row[..|row| - 1], R);
    }
  }

  /** The net flow out of `R` is the flow inside it plus the flow leaving it. */
  lemma {:induction false} SetSplit(g: Graph, R: set<int>)
    ensures SetFlow(g, R) == InnerFlow(g, R) + OutFlow(g, R)
    decreases |g|
  {
    if |g| > 0 {
      SetSplit(g[..|g| - 1], R);
      RowSplit(g[|g| - 1], R);
    }
  }

  lemma {:induction false} RowSaturated(row: seq<Edge>, R: set<int>)
    requires forall j | 0 <= j < |row| && row[j].to !in R :: row[j].flow == row[j].cap
    ensures FlowOut(row, R) == CapOut(row, R)
    decreases |row|
  {
    if |row| > 0 {
      RowSaturated(row[..|row| - 1], R);
    }
  }

  lemma {:induction false} RowBounded(row: seq<Edge>, R: set<int>)
    requires forall j | 0 <= j < |row| :: row[j].flow <= row[j].cap
    ensures FlowOut(row, R) <= CapOut(row, R)
    decreases |row|
  {
    if |row| > 0 {
      RowBounded(row[..|row| - 1], R);
    }
  }

  /** Every edge leaving a residual-closed set is saturated. */
  lemma {:induction false} SetSaturated(g: Graph, R: set<int>)
    requires WithinCap(g) && Closed(g, R)
    ensures OutFlow(g, R) == CutCap(g, R)
    decreases |g|
  {
    if |g| > 0 {
      var last := |g| - 1;
      assert WithinCap(g[..last]);
      SetSaturated(g[..last], R);
      if last in R {
        forall j | 0 <= j < |g[last]| && g[last][j].to !in R
          ensures g[last][j].flow == g[last][j].cap
        {
          assert IsPos(g, last, j);
        }
        RowSaturated(g[last], R);
      }
    }
  }

  /** No edge carries more than its capacity out of any set. */
  lemma {:induction false} SetBounded(g: Graph, R: set<int>)
    requires WithinCap(g)
    ensures OutFlow(g, R) <= CutCap(g, R)
    decreases |g|
  {
    if |g| > 0 {
      var last := |g| - 1;
      assert WithinCap(g[..last]);
      SetBounded(g[..last], R);
      forall j | 0 <= j < |g[last]|
        ensures g[last][j].flow <= g[last][j].cap
      {
        assert IsPos(g, last, j);
      }
      RowBounded(g[last], R);
    }
  }

  /** With every other vertex of `R` balanced, the net flow out of `R` is the
      source's. */
  lemma {:induction false} SetFlowSource(g: Graph, R: set<int>, s: int)
    requires forall x | 0 <= x < |g| && x in R && x != s :: FlowSum(g[x]) == 0
    ensures SetFlow(g, R) == (if 0 <= s < |g| && s in R then FlowSum(g[s]) else 0)
    decreases |g|
  {
    if |g| > 0 {
      SetFlowSource(g[..|g| - 1], R, s);
    }
  }

  /** The flow value equals the capacity of the cut a residual-closed set
      holding the source and not the sink defines. */
  lemma CutEqualsFlow(g: Graph, R: set<int>, s: int, t: int)
    requires WellFormed(g) && Balanced(g) && 0 <= s < |g| && 0 <= t < |g|
    requires forall x | 0 <= x < |g| && x != s && x != t :: FlowSum(g[x]) == 0
    requires s in R && t !in R && Closed(g, R)
    ensures FlowSum(g[s]) == CutCap(g, R)
  {
    SetFlowSource(g, R, s);
    SetSplit(g, R);
    assert InnerFlow(g, R) == 0;
    WellFormedWithinCap(g);
    SetSaturated(g, R);
  }

  /** Weak duality on the residual graph: the flow value is at most the
      capacity of any set holding the source and not the sink. */
  lemma FlowBelowCut(g: Graph, R: set<int>, s: int, t: int)
    requires WellFormed(g) && Balanced(g) && 0 <= s < |g| && 0 <= t < |g|
    requires forall x | 0 <= x < |g| && x != s && x != t :: FlowSum(g[x]) == 0
    requires s in R && t !in R
    ensures FlowSum(g[s]) <= CutCap(g, R)
  {
    SetFlowSource(g, R, s);
    SetSplit(g, R);
    assert InnerFlow(g, R) == 0;
    WellFormedWithinCap(g);
    SetBounded(g, R);
  }

  lemma {:induction false} CutCapUpdate(g: Graph, u: int, row: seq<Edge>, R: set<int>)
    requires 0 <= u < |g|
    ensures CutCap(g[u := row], R) == CutCap(g, R) + (if u in R then CapOut(row, R) - CapOut(g[u], R) else 0)
    decreases |g|
  {
    var last := |g| - 1;
    if u < last {
      assert g[u := row][..last] == g[..last][u := row];
      CutCapUpdate(g[..last], u, row, R);
    } else {
      assert g[u := row][..last] == g[..last];
    }
  }

  lemma {:induction false} CutCapSameShape(g: Graph, h: Graph, R: set<int>)
    requires SameShape(g, h)
    ensures CutCap(g, R) == CutCap(h, R)
    decreases |g|
  {
    if |g| > 0 {
      var last := |g| - 1;
      CutCapSameShape(g[..last], h[..last], R);
      CapOutSame(g[last], h[last], R);
    }
  }

  lemma {:induction false} CapOutSame(a: seq<Edge>, b: seq<Edge>, R: set<int>)
    requires |a| == |b| && forall i | 0 <= i < |a| :: a[i].to == b[i].to && a[i].cap == b[i].cap
    ensures CapOut(a, R) == CapOut(b, R)
    decreases |a|
  {
    if |a| > 0 {
      CapOutSame(a[..|a| - 1], b[..|b| - 1], R);
    }
  }

  /** The capacity of the arcs from `R` to its complement. */
  ghost function ArcCut(arcs: seq<Arc>, R: set<int>): int
  {
    if |arcs| == 0 then 0
    else
      var a := arcs[|arcs| - 1];
      ArcCut(arcs[..|arcs| - 1], R) + (if a.from in R && a.to !in R then a.cap else 0)
  }

  /** One `adicionar_aresta` adds its capacity to the cut exactly when the
      arc leaves `R`; its reverse edge has capacity 0. */
  lemma AddEdgeCutCap(g: Graph, from: int, to: int, cap: int, cost: int, R: set<int>)
    requires 0 <= from < |g| && 0 <= to < |g|
    ensures CutCap(AddEdge(g, from, to, cap, cost), R)
         == CutCap(g, R) + (if from in R && to !in R then cap else 0)
  {
    var forward := Edge(to, cap, cost, 0, |g[to]|);
    var backward := Edge(from, 0, -cost, 0, |g[from]|);
    var g1 := g[from := g[from] + [forward]];
    assert (g[from] + [forward])[..|g[from]|] == g[from];
    CutCapUpdate(g, from, g[from] + [forward], R);
    assert (g1[to] + [backward])[..|g1[to]|] == g1[to];
    CutCapUpdate(g1, to, g1[to] + [backward], R);
  }

  /** The cut capacity of the built graph is that of the arcs it was built
      from. */
  lemma {:induction false} BuildCutCap(n: nat, arcs: seq<Arc>, R: set<int>)
    requires ArcsInRange(n, arcs)
    ensures CutCap(Build(n, arcs), R) == ArcCut(arcs, R)
    decreases |arcs|
  {
    if |arcs| == 0 {
      EmptyCutCap(NewGraph(n), R);
    } else {
      var a := arcs[|arcs| - 1];
      var prefix := arcs[..|arcs| - 1];
      assert ArcsInRange(n, prefix);
      BuildCutCap(n, prefix, R);
      AddEdgeCutCap(Build(n, prefix), a.from, a.to, a.cap, a.cost, R);
    }
  }

  lemma {:induction false} EmptyCutCap(g: Graph, R: set<int>)
    requires forall u | 0 <= u < |g| :: |g[u]| == 0
    ensures CutCap(g, R) == 0
    decreases |g|
  {
    if |g| > 0 {
      EmptyCutCap(g[..|g| - 1], R);
    }
  }

  /** The net flow out of `x` of a flow `f` that assigns one amount to each
      arc. */
  ghost function NetOut(arcs: seq<Arc>, f: seq<int>, x: int): int
    requires |f| == |arcs|
  {
    if |arcs| == 0 then 0
    else
      var a, l := arcs[|arcs| - 1], |arcs| - 1;
      NetOut(arcs[..l], f[..l], x) + (if a.from == x then f[l] else 0) - (if a.to == x then f[l] else 0)
  }

  /** A flow from `s` to `t` over the arcs: within each arc's capacity and
      conserved at every other vertex. */
  ghost predicate ArcFlow(n: nat, arcs: seq<Arc>, f: seq<int>, s: int, t: int)
  {
    && |f| == |arcs|
    && (forall k | 0 <= k < |arcs| :: 0 <= f[k] <= arcs[k].cap)
    && (forall x | 0 <= x < n && x != s && x != t :: NetOut(arcs, f, x) == 0)
  }

  /** The net flow out of the vertices of `R` below `m`. */
  ghost function SetNet(arcs: seq<Arc>, f: seq<int>, R: set<int>, m: nat): int
    requires |f| == |arcs|
  {
    if m == 0 then 0
    else SetNet(arcs, f, R, m - 1) + (if m - 1 in R then NetOut(arcs, f, m - 1) else 0)
  }

  /** What crosses the boundary of `R`: arcs leaving it count positive,
      arcs entering it negative. */
  ghost function Crossing(arcs: seq<Arc>, f: seq<int>, R: set<int>): int
    requires |f| == |arcs|
  {
    if |arcs| == 0 then 0
    else
      var a, l := arcs[|arcs| - 1], |arcs| - 1;
      Crossing(arcs[..l], f[..l], R) + (if a.from in R then f[l] else 0) - (if a.to in R then f[l] else 0)
  }

  /** Peeling the last arc off every vertex of the sum. */
  lemma {:induction false} SetNetLast(arcs: seq<Arc>, f: seq<int>, R: set<int>, m: nat)
    requires |f| == |arcs| > 0
    ensures var a, l := arcs[|arcs| - 1], |arcs| - 1;
      SetNet(arcs, f, R, m)
        == SetNet(arcs[..l], f[..l], R, m)
         + (if 0 <= a.from < m && a.from in R then f[l] else 0)
         - (if 0 <= a.to < m && a.to in R then f[l] else 0)
  {
    if m > 0 {
      SetNetLast(arcs, f, R, m - 1);
    }
  }

  /** Summed over the vertices, the net flows leave only what crosses the
      boundary: every arc inside or outside `R` cancels. */
  lemma {:induction false} SetNetCrossing(n: nat, arcs: seq<Arc>, f: seq<int>, R: set<int>)
    requires ArcsInRange(n, arcs) && |f| == |arcs|
    ensures SetNet(arcs, f, R, n) == Crossing(arcs, f, R)
    decreases |arcs|
  {
    if |arcs| == 0 {
      SetNetEmpty(arcs, f, R, n);
    } else {
      var l := |arcs| - 1;
      assert ArcsInRange(n, arcs[..l]);
      SetNetCrossing(n, arcs[..l], f[..l], R);
      SetNetLast(arcs, f, R, n);
    }
  }

  lemma {:induction false} SetNetEmpty(arcs: seq<Arc>, f: seq<int>, R: set<int>, m: nat)
    requires |arcs| == 0 && |f| == 0
    ensures SetNet(arcs, f, R, m) == 0
  {
    if m > 0 {
      SetNetEmpty(arcs, f, R, m - 1);
    }
  }

  /** With the other vertices of `R` conserved, the net flow out of `R` is
      the source's. */
  lemma {:induction false} SetNetSource(arcs: seq<Arc>, f: seq<int>, R: set<int>, s: int, m: nat)
    requires |f| == |arcs|
    requires forall x | 0 <= x < m && x in R && x != s :: NetOut(arcs, f, x) == 0
    ensures SetNet(arcs, f, R, m) == (if 0 <= s < m && s in R then NetOut(arcs, f, s) else 0)
  {
    if m > 0 {
      SetNetSource(arcs, f, R, s, m - 1);
    }
  }

  lemma {:induction false} CrossingBelowCut(arcs: seq<Arc>, f: seq<int>, R: set<int>)
    requires |f| == |arcs| && forall k | 0 <= k < |arcs| :: 0 <= f[k] <= arcs[k].cap
    ensures Crossing(arcs, f, R) <= ArcCut(arcs, R)
    decreases |arcs|
  {
    if |arcs| > 0 {
      CrossingBelowCut(arcs[..|arcs| - 1], f[..|arcs| - 1], R);
    }
  }

  /** Weak duality: no flow of the arcs from `s` to `t` is worth more than
      the capacity of the arcs leaving any set that holds `s` and not `t`. */
  lemma ArcFlowBelowCut(n: nat, arcs: seq<Arc>, f: seq<int>, s: int, t: int, R: set<int>)
    requires ArcsInRange(n, arcs) && ArcFlow(n, arcs, f, s, t)
    requires 0 <= s < n && s in R && t !in R
    ensures NetOut(arcs, f, s) <= ArcCut(arcs, R)
  {
    SetNetSource(arcs, f, R, s, n);
    SetNetCrossing(n, arcs, f, R);
    CrossingBelowCut(arcs, f, R);
  }

  /** On a single vertex every arc is a self-loop and nothing leaves it. */
  lemma {:induction false} SingleVertexNet(arcs: seq<Arc>, f: seq<int>)
    requires ArcsInRange(1, arcs) && |f| == |arcs|
    ensures NetOut(arcs, f, 0) == 0
    decreases |arcs|
  {
    if |arcs| > 0 {
      assert ArcsInRange(1, arcs[..|arcs| - 1]);
      SingleVertexNet(arcs[..|arcs| - 1], f[..|arcs| - 1]);
    }
  }
}
