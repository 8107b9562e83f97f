/** Tarjan's articulation points (`findArticulationPoints` and `dfsAP` of
    LAB_01).  A vertex is an articulation point when removing it separates
    two vertices that were connected; the depth-first search decides this
    from discovery times and `low` values, and the proof here shows that it
    marks exactly those vertices. */
module Articulation {
  import opened UndirectedGraph

  /** Removing `x` disconnects two vertices that were connected. */
  ghost predicate CutVertex(g: UGraph, x: int)
  {
    exists a, b | 0 <= a < g.n && 0 <= b < g.n && a != x && b != x ::
      Reach(g, {}, a, b) && !Reach(g, {x}, a, b)
  }

  ghost function First(p: seq<int>, x: int): (i: int)
    requires x in p
    ensures 0 <= i < |p| && p[i] == x && x !in p[..i]
  {
    if p[0] == x then 0 else
      var i := 1 + First(p[1..], x);
      assert p[..i] == [p[0]] + p[1..][..i - 1];
      i
  }

  ghost function Last(p: seq<int>, x: int): (j: int)
    requires x in p
    ensures 0 <= j < |p| && p[j] == x && x !in p[j + 1..]
  {
    if p[|p| - 1] == x then |p| - 1 else
      var j := Last(p[..|p| - 1], x);
      assert p[j + 1..] == p[..|p| - 1][j + 1..] + [p[|p| - 1]];
      j
  }

  /** A stretch of a walk that never visits `x` joins its ends without `x`. */
  lemma AvoidingStretch(g: UGraph, x: int, p: seq<int>, i: int, j: int)
    requires Walk(g, {}, p) && 0 <= i < j <= |p| && x !in p[i..j]
    ensures Reach(g, {x}, p[i], p[j - 1])
  {
    WalkSlice(g, {}, p, i, j);
    var q := p[i..j];
    assert forall k | 0 <= k < |q| :: q[k] !in {x};
    WalkAvoiding(g, {}, {x}, q);
    assert {} + {x} == {x};
    assert q[0] == p[i] && q[|q| - 1] == p[j - 1];
  }

  /** The vertex before the first visit to `x` is a neighbour of `x`
      that the walk's start reaches without `x`. */
  lemma BeforeFirst(g: UGraph, x: int, p: seq<int>, i: int)
    requires Valid(g) && 0 <= x < g.n && Walk(g, {}, p)
    requires 0 < i < |p| && p[i] == x && x !in p[..i]
    ensures p[i - 1] in g.adj[x] && p[i - 1] != x && Reach(g, {x}, p[0], p[i - 1])
  {
    assert p[0..i] == p[..i];
    assert p[i - 1] in p[..i];
    AvoidingStretch(g, x, p, 0, i);
    WalkStep(g, {}, p, i - 1);
    AdjacentSymmetric(g, p[i - 1], x);
  }

  /** The vertex after the last visit to `x` is a neighbour of `x` that
      reaches the walk's end without `x`. */
  lemma AfterLast(g: UGraph, x: int, p: seq<int>, j: int)
    requires Valid(g) && 0 <= x < g.n && Walk(g, {}, p)
    requires 0 <= j < |p| - 1 && p[j] == x && x !in p[j + 1..]
    ensures p[j + 1] in g.adj[x] && p[j + 1] != x && Reach(g, {x}, p[j + 1], p[|p| - 1])
  {
    assert p[j + 1..|p|] == p[j + 1..];
    assert p[j + 1] in p[j + 1..];
    AvoidingStretch(g, x, p, j + 1, |p|);
    WalkStep(g, {}, p, j);
  }

  /** The stretch before the first visit to `x` ends next to `x`, so it
      joins the walk's start to `hub` without `x`. */
  lemma ReachHubBefore(g: UGraph, x: int, hub: int, p: seq<int>, i: int)
    requires Valid(g) && 0 <= x < g.n && Walk(g, {}, p)
    requires 0 < i < |p| && p[i] == x && x !in p[..i]
    requires forall z | z in g.adj[x] && z != x :: Reach(g, {x}, hub, z)
    ensures Reach(g, {x}, p[0], hub)
  {
    BeforeFirst(g, x, p, i);
    var z := p[i - 1];
    assert Reach(g, {x}, hub, z);
    ReachSymmetric(g, {x}, hub, z);
    ReachTrans(g, {x}, p[0], z, hub);
  }

  /** The stretch after the last visit to `x` starts next to `x`, so
      `hub` reaches the walk's end without `x`. */
  lemma ReachHubAfter(g: UGraph, x: int, hub: int, p: seq<int>, j: int)
    requires Valid(g) && 0 <= x < g.n && Walk(g, {}, p)
    requires 0 <= j < |p| - 1 && p[j] == x && x !in p[j + 1..]
    requires forall z | z in g.adj[x] && z != x :: Reach(g, {x}, hub, z)
    ensures Reach(g, {x}, hub, p[|p| - 1])
  {
    AfterLast(g, x, p, j);
    var z := p[j + 1];
    assert Reach(g, {x}, hub, z);
    ReachTrans(g, {x}, hub, z, p[|p| - 1]);
  }

  /** A walk between two vertices other than `x` that passes `x` can be
      rerouted around it when all neighbours of `x` are joined to `hub`
      without it: leave before the first visit, go through `hub`, rejoin
      after the last. */
  lemma Reroute(g: UGraph, x: int, hub: int, p: seq<int>)
    requires Valid(g) && 0 <= x < g.n && Walk(g, {}, p) && p[0] != x && p[|p| - 1] != x
    requires forall z | z in g.adj[x] && z != x :: Reach(g, {x}, hub, z)
    ensures Reach(g, {x}, p[0], p[|p| - 1])
  {
    if x !in p {
      assert p[0..|p|] == p;
      AvoidingStretch(g, x, p, 0, |p|);
    } else {
      var i := First(p, x);
      var j := Last(p, x);
      ReachHubBefore(g, x, hub, p, i);
      ReachHubAfter(g, x, hub, p, j);
      ReachTrans(g, {x}, p[0], hub, p[|p| - 1]);
    }
  }

  /** If every neighbour of `x` is joined to `hub` without passing `x`,
      then `x` is not an articulation point. */
  lemma NotCut(g: UGraph, x: int, hub: int)
    requires Valid(g) && 0 <= x < g.n
    requires forall z | z in g.adj[x] && z != x :: Reach(g, {x}, hub, z)
    ensures !CutVertex(g, x)
  {
    forall a, b | 0 <= a < g.n && 0 <= b < g.n && a != x && b != x && Reach(g, {}, a, b)
      ensures Reach(g, {x}, a, b)
    {
      var p :| Walk(g, {}, p) && p[0] == a && p[|p| - 1] == b;
      Reroute(g, x, hub, p);
    }
  }

  /** The vertices of a path `anc` not containing `u` are all reachable from
      its last vertex without passing `u`. */
  lemma {:induction false} ChainReach(g: UGraph, anc: seq<int>, u: int, i: int)
    requires Valid(g) && u !in anc && 0 <= i < |anc|
    requires forall k | 0 <= k < |anc| :: 0 <= anc[k] < g.n
    requires forall k | 0 < k < |anc| :: Adjacent(g, anc[k - 1], anc[k])
    ensures Reach(g, {u}, anc[|anc| - 1], anc[i])
    decreases |anc| - i
  {
    if i == |anc| - 1 {
      ReachSelf(g, {u}, anc[i]);
    } else {
      ChainReach(g, anc, u, i + 1);
      AdjacentSymmetric(g, anc[i], anc[i + 1]);
      ReachExtend(g, {u}, anc[|anc| - 1], anc[i + 1], anc[i]);
    }
  }

  /** The arrays `dfsAP` threads through its calls: discovery times (`-1`
      for undiscovered), `low` values, the articulation marks, the clock. */
  datatype Search = Search(disc: seq<int>, low: seq<int>, ap: seq<bool>, time: int)

  predicate Sized(g: UGraph, st: Search)
  {
    |g.adj| == g.n && |st.disc| == g.n && |st.low| == g.n && |st.ap| == g.n
  }

  function Seen(st: Search): set<int>
  {
    set x | 0 <= x < |st.disc| && st.disc[x] != -1
  }

  function Unseen(st: Search): set<int>
  {
    set x | 0 <= x < |st.disc| && st.disc[x] == -1
  }

  /** `x` was discovered between `st0` and `st`. */
  predicate Fresh(st0: Search, st: Search, x: int)
  {
    0 <= x < |st0.disc| && x < |st.disc| && st0.disc[x] == -1 && st.disc[x] != -1
  }

  /** Discovery times run from 1 to the clock. */
  ghost predicate Clocked(st: Search)
  {
    st.time >= 0 && forall x | 0 <= x < |st.disc| && st.disc[x] != -1 :: 1 <= st.disc[x] <= st.time
  }

  /** Every neighbour of `x` has been discovered. */
  ghost predicate Explored(g: UGraph, st: Search, x: int)
    requires 0 <= x < |g.adj|
  {
    forall y | y in g.adj[x] :: 0 <= y < |st.disc| && st.disc[y] != -1
  }

  /** Every discovered vertex off the call chain `anc` is finished. */
  ghost predicate ClosedExcept(g: UGraph, st: Search, anc: seq<int>)
    requires Sized(g, st)
  {
    forall x | 0 <= x < g.n && st.disc[x] != -1 && x !in anc :: Explored(g, st, x)
  }

  /** `anc` is a path of discovered vertices. */
  ghost predicate Chain(g: UGraph, st: Search, anc: seq<int>)
    requires Sized(g, st)
  {
    && (forall i | 0 <= i < |anc| :: 0 <= anc[i] < g.n && st.disc[anc[i]] != -1)
    && (forall i | 0 < i < |anc| :: Adjacent(g, anc[i - 1], anc[i]))
  }

  /** Undiscovered vertices are not marked. */
  ghost predicate Unmarked(st: Search)
    requires |st.ap| == |st.disc|
  {
    forall x | 0 <= x < |st.disc| && st.disc[x] == -1 :: !st.ap[x]
  }

  /** What `st0` knew about its discovered vertices is still there. */
  ghost predicate Keeps(g: UGraph, st0: Search, st: Search)
    requires Sized(g, st0) && Sized(g, st)
  {
    forall x | 0 <= x < g.n && st0.disc[x] != -1 ::
      st.disc[x] == st0.disc[x] && st.low[x] == st0.low[x] && st.ap[x] == st0.ap[x]
  }

  /** An edge from a vertex discovered during the call at `u` to one
      discovered before it, other than the edge back to `u`'s parent. */
  ghost predicate Escape(g: UGraph, st0: Search, st: Search, u: int, parent: int, w: int, y: int)
    requires Sized(g, st0) && Sized(g, st)
  {
    Fresh(st0, st, w) && y in g.adj[w] && 0 <= y < g.n && st0.disc[y] != -1 && !(w == u && y == parent)
  }

  /** `low[u]` is `disc[u]` or the discovery time of the far end of an escaping edge. */
  ghost predicate LowWitness(g: UGraph, st0: Search, st: Search, u: int, parent: int, lw: int, ly: int)
    requires Sized(g, st0) && Sized(g, st) && 0 <= u < g.n
  {
    st.low[u] == st.disc[u] || (Escape(g, st0, st, u, parent, lw, ly) && st.low[u] == st0.disc[ly])
  }

  /** What `dfsAP(u, parent)` may assume: `u` undiscovered, `anc` the chain
      of active calls ending at `parent`, every other discovered vertex
      finished. */
  ghost predicate DfsPre(g: UGraph, u: int, parent: int, st: Search, anc: seq<int>)
  {
    && Valid(g) && Sized(g, st) && 0 <= u < g.n && st.disc[u] == -1
    && Clocked(st) && Unmarked(st) && Chain(g, st, anc)
    && parent == (if anc == [] then -1 else anc[|anc| - 1])
    && (anc != [] ==> Adjacent(g, parent, u))
    && ClosedExcept(g, st, anc)
  }

  /** The shape of the state after `dfsAP(u)`: earlier discoveries kept,
      the clock advanced, `u` discovered at the first new tick. */
  ghost predicate PostShape(g: UGraph, u: int, st0: Search, st: Search)
    requires Sized(g, st0) && 0 <= u < g.n
  {
    && Sized(g, st) && Keeps(g, st0, st) && st.time >= st0.time && Clocked(st) && Unmarked(st)
    && st.disc[u] == st0.time + 1 && st.low[u] <= st.disc[u]
  }

  /** Each vertex discovered since `st0` got a later time, is finished, and
      is marked exactly when it is an articulation point. */
  ghost predicate PostFresh(g: UGraph, st0: Search, st: Search)
    requires Sized(g, st0) && Sized(g, st)
  {
    forall x | Fresh(st0, st, x) ::
      st0.time < st.disc[x] && Explored(g, st, x) && (st.ap[x] <==> CutVertex(g, x))
  }

  /** The vertices discovered since `st0` are exactly those reachable from
      `u` through vertices undiscovered in `st0`. */
  ghost predicate PostReach(g: UGraph, u: int, st0: Search, st: Search)
    requires Sized(g, st0) && Sized(g, st)
  {
    forall x | 0 <= x < g.n :: Fresh(st0, st, x) <==> Reach(g, Seen(st0), u, x)
  }

  /** `low[u]` is at most the far end of every escaping edge, and is
      `disc[u]` or attained by one of them. */
  ghost predicate PostLow(g: UGraph, u: int, parent: int, st0: Search, st: Search, lw: int, ly: int)
    requires Sized(g, st0) && Sized(g, st) && 0 <= u < g.n
  {
    && (forall w, y | Escape(g, st0, st, u, parent, w, y) :: st.low[u] <= st0.disc[y])
    && LowWitness(g, st0, st, u, parent, lw, ly)
  }

  /** What `dfsAP(u, parent)` establishes: it discovers exactly the vertices
      reachable from `u` through undiscovered ones, at later times, each
      finished and marked exactly when it is an articulation point; `low[u]`
      is the least discovery time among `u` and the far ends of escaping
      edges. */
  ghost predicate DfsPost(g: UGraph, u: int, parent: int, st0: Search, st: Search, lw: int, ly: int)
    requires Sized(g, st0) && 0 <= u < g.n
  {
    && PostShape(g, u, st0, st) && PostFresh(g, st0, st) && PostReach(g, u, st0, st)
    && PostLow(g, u, parent, st0, st, lw, ly)
  }

  /** For a root, which has no parent to link to: no child yet means
      nothing else discovered; after the first child `hub`, everything
      reachable from `hub` around `u` is discovered, and with only that
      child everything discovered hangs on `hub`; a second child proves
      `u` an articulation point. */
  ghost predicate RootTrack(g: UGraph, u: int, st0: Search, st: Search, children: int, hub: int)
    requires Sized(g, st0) && Sized(g, st) && 0 <= u < g.n
  {
    && !st.ap[u] && children >= 0
    && (children == 0 ==> forall z | Fresh(st0, st, z) :: z == u)
    && (children >= 1 ==>
          && 0 <= hub < g.n && hub != u && Adjacent(g, u, hub)
          && forall t | Reach(g, {u}, hub, t) :: 0 <= t < g.n && st.disc[t] != -1)
    && (children == 1 ==> forall z | Fresh(st0, st, z) && z != u :: Reach(g, {u}, hub, z))
    && (children >= 2 ==> CutVertex(g, u))
  }

  /** Scan bookkeeping: earlier discoveries kept, `u` discovered at the
      first new tick, every discovered vertex off the chain `anc, u` finished. */
  ghost predicate ScanShape(g: UGraph, u: int, anc: seq<int>, st0: Search, st: Search)
    requires Sized(g, st0) && 0 <= u < g.n
  {
    && Sized(g, st) && Keeps(g, st0, st) && Clocked(st) && Unmarked(st)
    && st.time >= st0.time + 1 && st.disc[u] == st0.time + 1 && st.low[u] <= st.disc[u]
    && ClosedExcept(g, st, anc + [u])
  }

  /** The vertices discovered during the scan so far: later times, reachable
      from `u`, and (other than `u`) marked exactly when articulation points. */
  ghost predicate ScanFresh(g: UGraph, u: int, st0: Search, st: Search)
    requires Sized(g, st0) && Sized(g, st)
  {
    && (forall x | Fresh(st0, st, x) :: st0.time < st.disc[x] && Reach(g, Seen(st0), u, x))
    && (forall x | Fresh(st0, st, x) && x != u :: st.ap[x] <==> CutVertex(g, x))
  }

  /** The first `k` neighbours of `u` are discovered. */
  ghost predicate ScanSeen(g: UGraph, u: int, st: Search, k: int)
    requires Valid(g) && Sized(g, st) && 0 <= u < g.n
  {
    0 <= k <= |g.adj[u]| && forall j | 0 <= j < k :: st.disc[g.adj[u][j]] != -1
  }

  /** `low[u]` so far: below every escaping edge from a vertex discovered
      under a child and every escaping edge of `u` among its first `k`
      neighbours; and `disc[u]` or attained. */
  ghost predicate ScanLow(g: UGraph, u: int, parent: int, st0: Search, st: Search, k: int, lw: int, ly: int)
    requires Sized(g, st0) && Sized(g, st) && 0 <= u < g.n && 0 <= k <= |g.adj[u]|
  {
    && (forall w, y | Escape(g, st0, st, u, parent, w, y) && (w == u ==> y in g.adj[u][..k]) ::
          st.low[u] <= st0.disc[y])
    && LowWitness(g, st0, st, u, parent, lw, ly)
  }

  /** What is known about `u` being an articulation point: a mark is
      justified; a non-root still unmarked has everything discovered under
      it joined to its parent around it; a root is tracked by `RootTrack`. */
  ghost predicate ScanCut(g: UGraph, u: int, parent: int, st0: Search, st: Search, children: int, hub: int)
    requires Sized(g, st0) && Sized(g, st) && 0 <= u < g.n
  {
    && (st.ap[u] ==> CutVertex(g, u))
    && (parent != -1 && !st.ap[u] ==> forall z | Fresh(st0, st, z) && z != u :: Reach(g, {u}, parent, z))
    && (parent == -1 ==> RootTrack(g, u, st0, st, children, hub))
  }

  /** The state between two neighbours in the loop of `dfsAP(u, parent)`
      (lines 71-90), `k` neighbours looked at. */
  ghost predicate ScanOk(g: UGraph, u: int, parent: int, anc: seq<int>, st0: Search, st: Search,
                         k: int, children: int, hub: int, lw: int, ly: int)
    requires DfsPre(g, u, parent, st0, anc)
  {
    && ScanShape(g, u, anc, st0, st) && ScanFresh(g, u, st0, st) && ScanSeen(g, u, st, k)
    && ScanLow(g, u, parent, st0, st, k, lw, ly) && ScanCut(g, u, parent, st0, st, children, hub)
  }

  /** A finished vertex stays finished as discoveries accumulate. */
  lemma ExploredGrows(g: UGraph, st: Search, st': Search, x: int)
    requires Sized(g, st) && Sized(g, st') && Keeps(g, st, st') && 0 <= x < g.n && Explored(g, st, x)
    ensures Explored(g, st', x)
  {
    forall y | y in g.adj[x]
      ensures 0 <= y < |st'.disc| && st'.disc[y] != -1
    {
      assert st.disc[y] != -1;
    }
  }

  /** Line 69: `u` discovered at the next tick, with `low[u] = disc[u]`. */
  lemma ScanStart(g: UGraph, u: int, parent: int, anc: seq<int>, st0: Search, st1: Search)
    requires DfsPre(g, u, parent, st0, anc)
    requires st1 == Search(st0.disc[u := st0.time + 1], st0.low[u := st0.time + 1], st0.ap, st0.time + 1)
    ensures ScanOk(g, u, parent, anc, st0, st1, 0, 0, -1, -1, -1)
  {
    forall x | 0 <= x < g.n && st1.disc[x] != -1 && x !in anc + [u]
      ensures Explored(g, st1, x)
    {
      ExploredGrows(g, st0, st1, x);
    }
    forall x | Fresh(st0, st1, x)
      ensures x == u && st0.time < st1.disc[x] && Reach(g, Seen(st0), u, x)
    {
      ReachSelf(g, Seen(st0), u);
    }
  }

  /** Line 75: before the call on an undiscovered neighbour `v`, the call
      chain grows by `u`, and fewer vertices are undiscovered than when
      `dfsAP(u)` began. */
  lemma ChildPre(g: UGraph, u: int, parent: int, anc: seq<int>, st0: Search, st: Search,
                 k: int, children: int, hub: int, lw: int, ly: int, v: int)
    requires DfsPre(g, u, parent, st0, anc)
    requires ScanOk(g, u, parent, anc, st0, st, k, children, hub, lw, ly)
    requires k < |g.adj[u]| && v == g.adj[u][k] && st.disc[v] == -1
    ensures DfsPre(g, v, u, st, anc + [u])
    ensures Unseen(st) < Unseen(st0)
  {
    var anc' := anc + [u];
    forall i | 0 < i < |anc'|
      ensures Adjacent(g, anc'[i - 1], anc'[i])
    {
      if i < |anc| {
        assert anc'[i - 1] == anc[i - 1] && anc'[i] == anc[i];
      }
    }
    assert u in Unseen(st0) && u !in Unseen(st);
  }

  /** Lines 78-84, after the call on child `v`: `low[u] = min(low[u],
      low[v])`, and a non-root `u` is marked when `low[v] >= disc[u]`. */
  function AfterChild(st: Search, u: int, v: int, parent: int): (r: Search)
    requires 0 <= u < |st.low| && 0 <= v < |st.low| && |st.disc| == |st.low|
    ensures r.disc == st.disc && r.time == st.time && |r.low| == |st.low| && |r.ap| == |st.ap|
    ensures r.low[u] == (if st.low[v] < st.low[u] then st.low[v] else st.low[u])
    ensures forall x | 0 <= x < |st.low| && x != u :: r.low[x] == st.low[x]
    ensures forall x | 0 <= x < |st.ap| && x != u :: r.ap[x] == st.ap[x]
    ensures 0 <= u < |st.ap| ==> r.ap[u] == (st.ap[u] || (parent != -1 && st.low[v] >= st.disc[u]))
  {
    var low := st.low[u := if st.low[v] < st.low[u] then st.low[v] else st.low[u]];
    var ap := if parent != -1 && st.low[v] >= st.disc[u] && 0 <= u < |st.ap| then st.ap[u := true] else st.ap;
    Search(st.disc, low, ap, st.time)
  }

  /** Scan bookkeeping survives the call on child `v` and the update after it. */
  lemma ChildKeeps(g: UGraph, u: int, parent: int, anc: seq<int>, st0: Search, st: Search, v: int, stc: Search)
    requires DfsPre(g, u, parent, st0, anc) && ScanShape(g, u, anc, st0, st)
    requires 0 <= v < g.n && st.disc[v] == -1
    requires PostShape(g, v, st, stc) && PostFresh(g, st, stc)
    ensures ScanShape(g, u, anc, st0, AfterChild(stc, u, v, parent))
  {
    var st' := AfterChild(stc, u, v, parent);
    forall x | 0 <= x < g.n && st'.disc[x] != -1 && x !in anc + [u]
      ensures Explored(g, st', x)
    {
      if st.disc[x] != -1 {
        ExploredGrows(g, st, stc, x);
      } else {
        assert Fresh(st, stc, x);
      }
    }
  }

  /** The vertices discovered under child `v` are reachable from `u` and
      marked correctly. */
  lemma ChildFresh(g: UGraph, u: int, parent: int, anc: seq<int>, st0: Search, st: Search, v: int, stc: Search)
    requires DfsPre(g, u, parent, st0, anc) && ScanShape(g, u, anc, st0, st) && ScanFresh(g, u, st0, st)
    requires Adjacent(g, u, v) && 0 <= v < g.n && st.disc[v] == -1
    requires PostShape(g, v, st, stc) && PostFresh(g, st, stc) && PostReach(g, v, st, stc)
    ensures ScanFresh(g, u, st0, AfterChild(stc, u, v, parent))
  {
    var st' := AfterChild(stc, u, v, parent);
    assert Seen(st0) <= Seen(st);
    ReachSelf(g, Seen(st0), u);
    ReachExtend(g, Seen(st0), u, u, v);
    forall x | Fresh(st0, st', x)
      ensures st0.time < st'.disc[x] && Reach(g, Seen(st0), u, x)
    {
      if st.disc[x] == -1 {
        assert Fresh(st, stc, x);
        ReachWiden(g, Seen(st), Seen(st0), v, x);
        ReachTrans(g, Seen(st0), u, v, x);
      } else {
        assert Fresh(st0, st, x);
      }
    }
    forall x | Fresh(st0, st', x) && x != u
      ensures st'.ap[x] <==> CutVertex(g, x)
    {
      if st.disc[x] == -1 {
        assert Fresh(st, stc, x);
      } else {
        assert Fresh(st0, st, x);
      }
    }
  }

  /** Neighbour `k` is discovered after its call. */
  lemma ChildSeen(g: UGraph, u: int, parent: int, st: Search, k: int, v: int, stc: Search)
    requires Valid(g) && Sized(g, st) && Clocked(st) && 0 <= u < g.n && ScanSeen(g, u, st, k)
    requires k < |g.adj[u]| && v == g.adj[u][k] && st.disc[v] == -1
    requires PostShape(g, v, st, stc)
    ensures ScanSeen(g, u, AfterChild(stc, u, v, parent), k + 1)
  {
    forall j | 0 <= j < k
      ensures stc.disc[g.adj[u][j]] != -1
    {
      assert g.adj[u][j] in g.adj[u];
    }
  }

  /** The `low` part of the scan invariant survives a child call. */
  lemma ChildLow(g: UGraph, u: int, parent: int, anc: seq<int>, st0: Search, st: Search,
                 k: int, lw: int, ly: int, v: int, stc: Search, cw: int, cy: int)
    requires DfsPre(g, u, parent, st0, anc) && ScanShape(g, u, anc, st0, st)
    requires ScanSeen(g, u, st, k) && ScanLow(g, u, parent, st0, st, k, lw, ly)
    requires k < |g.adj[u]| && v == g.adj[u][k] && st.disc[v] == -1
    requires PostShape(g, v, st, stc) && PostLow(g, v, u, st, stc, cw, cy)
    ensures var better := stc.low[v] < stc.low[u];
      ScanLow(g, u, parent, st0, AfterChild(stc, u, v, parent), k + 1,
              if better then cw else lw, if better then cy else ly)
  {
    var st' := AfterChild(stc, u, v, parent);
    assert g.adj[u][..k + 1] == g.adj[u][..k] + [v];
    forall w, y | Escape(g, st0, st', u, parent, w, y) && (w == u ==> y in g.adj[u][..k + 1])
      ensures st'.low[u] <= st0.disc[y]
    {
      if st.disc[w] != -1 {
        assert Escape(g, st0, st, u, parent, w, y);
      } else {
        assert Escape(g, st, stc, v, u, w, y);
      }
    }
    if stc.low[v] < stc.low[u] {
      assert st.disc[cy] < st0.time + 1;
      assert st0.disc[cy] != -1;
    } else if st'.low[u] != st'.disc[u] {
      assert Escape(g, st0, st, u, parent, lw, ly);
    }
  }

  /** An edge from a vertex discovered by the call on child `v` to an
      active call escapes, so it bounds `low[v]` by an earlier time. */
  lemma AncestorEscape(g: UGraph, u: int, parent: int, anc: seq<int>, st0: Search, st: Search,
                       v: int, stc: Search, cw: int, cy: int, x: int, y: int)
    requires DfsPre(g, u, parent, st0, anc) && ScanShape(g, u, anc, st0, st)
    requires 0 <= v < g.n && st.disc[v] == -1
    requires PostShape(g, v, st, stc) && PostLow(g, v, u, st, stc, cw, cy)
    requires Fresh(st, stc, x) && y in g.adj[x] && 0 <= y < g.n && y != u
    ensures y in anc ==> stc.low[v] <= st0.time
  {
    if y in anc {
      assert st0.disc[y] != -1 && st.disc[y] == st0.disc[y] <= st0.time;
      assert Escape(g, st, stc, v, u, x, y);
    }
  }

  /** When `low[v] >= disc[u]` after the call on child `v`, every vertex
      reachable from `v` without passing `u` was discovered by that call:
      an edge leaving that region would either escape to an active call
      (and bring `low[v]` below `disc[u]`) or reach a finished vertex (which
      has no undiscovered neighbours). */
  lemma Trapped(g: UGraph, u: int, parent: int, anc: seq<int>, st0: Search, st: Search,
                v: int, stc: Search, cw: int, cy: int)
    requires DfsPre(g, u, parent, st0, anc) && ScanShape(g, u, anc, st0, st)
    requires 0 <= v < g.n && st.disc[v] == -1
    requires PostShape(g, v, st, stc) && PostFresh(g, st, stc) && PostLow(g, v, u, st, stc, cw, cy)
    requires stc.low[v] >= st.disc[u]
    ensures forall t | Reach(g, {u}, v, t) :: Fresh(st, stc, t)
  {
    var marked := seq(g.n, x requires 0 <= x < g.n => Fresh(st, stc, x));
    forall x, y | 0 <= x < g.n && marked[x] && Adjacent(g, x, y) && 0 <= y < g.n && y !in {u}
      ensures marked[y]
    {
      var k :| 0 <= k < |g.adj[x]| && g.adj[x][k] == y;
      assert x in g.adj[y];
      assert Fresh(st, stc, x);
      assert st.disc[y] == -1 || y in anc;
      AncestorEscape(g, u, parent, anc, st0, st, v, stc, cw, cy, x, y);
    }
    forall t | Reach(g, {u}, v, t)
      ensures Fresh(st, stc, t)
    {
      var p :| Walk(g, {u}, p) && p[0] == v && p[|p| - 1] == t;
      ClosedHoldsReach(g, {u}, marked, p);
    }
  }

  /** For the root, nothing discovered before its first child can be the
      far end of an escaping edge other than the root itself, so the first
      child has `low >= disc[root]`. */
  lemma RootFirstLow(g: UGraph, u: int, st0: Search, st: Search, v: int, stc: Search, cw: int, cy: int)
    requires DfsPre(g, u, -1, st0, []) && ScanShape(g, u, [], st0, st)
    requires forall z | Fresh(st0, st, z) :: z == u
    requires 0 <= v < g.n && st.disc[v] == -1
    requires PostShape(g, v, st, stc) && PostLow(g, v, u, st, stc, cw, cy)
    ensures stc.low[v] >= st.disc[u]
  {
    if stc.low[v] != stc.disc[v] {
      assert Escape(g, st, stc, v, u, cw, cy);
      assert cw in g.adj[cy] by {
        var k :| 0 <= k < |g.adj[cw]| && g.adj[cw][k] == cy;
      }
    }
  }

  /** A non-root `u` marked after child `v` (`low[v] >= disc[u]`) is an
      articulation point: `v` and the parent are joined through `u`, and
      not around it. */
  lemma ChildMark(g: UGraph, u: int, parent: int, anc: seq<int>, st0: Search, st: Search,
                  v: int, stc: Search, cw: int, cy: int)
    requires DfsPre(g, u, parent, st0, anc) && ScanShape(g, u, anc, st0, st)
    requires parent != -1 && Adjacent(g, u, v) && 0 <= v < g.n && st.disc[v] == -1
    requires PostShape(g, v, st, stc) && PostFresh(g, st, stc) && PostLow(g, v, u, st, stc, cw, cy)
    requires stc.low[v] >= stc.disc[u]
    ensures CutVertex(g, u)
  {
    Trapped(g, u, parent, anc, st0, st, v, stc, cw, cy);
    AdjacentSymmetric(g, u, v);
    AdjacentSymmetric(g, parent, u);
    ReachSelf(g, {}, v);
    ReachExtend(g, {}, v, v, u);
    ReachExtend(g, {}, v, u, parent);
    assert Reach(g, {u}, v, parent) ==> Fresh(st, stc, parent);
    assert v != u && parent != u;
  }

  /** A non-root `u` left unmarked after child `v` (`low[v] < disc[u]`):
      the escaping edge behind `low[v]` reaches an active call, which the
      chain joins to the parent, so all of `v`'s vertices hang on the
      parent around `u`. */
  lemma ChildLink(g: UGraph, u: int, parent: int, anc: seq<int>, st0: Search, st: Search,
                  v: int, stc: Search, cw: int, cy: int)
    requires DfsPre(g, u, parent, st0, anc) && ScanShape(g, u, anc, st0, st) && ScanFresh(g, u, st0, st)
    requires parent != -1 && 0 <= v < g.n && st.disc[v] == -1
    requires PostShape(g, v, st, stc) && PostReach(g, v, st, stc) && PostLow(g, v, u, st, stc, cw, cy)
    requires stc.low[v] < stc.disc[u]
    ensures forall z | Fresh(st, stc, z) :: Reach(g, {u}, parent, z)
  {
    assert Escape(g, st, stc, v, u, cw, cy);
    assert st0.disc[cy] != -1;
    assert !Explored(g, st0, cy) by {
      var k :| 0 <= k < |g.adj[cw]| && g.adj[cw][k] == cy;
      assert cw in g.adj[cy];
    }
    assert cy in anc;
    var i :| 0 <= i < |anc| && anc[i] == cy;
    ChainReach(g, anc, u, i);
    assert Adjacent(g, cy, cw) by {
      var k :| 0 <= k < |g.adj[cw]| && g.adj[cw][k] == cy;
    }
    ReachExtend(g, {u}, parent, cy, cw);
    assert {u} <= Seen(st);
    ReachWiden(g, Seen(st), {u}, v, cw);
    ReachSymmetric(g, {u}, v, cw);
    ReachTrans(g, {u}, parent, cw, v);
    forall z | Fresh(st, stc, z)
      ensures Reach(g, {u}, parent, z)
    {
      ReachWiden(g, Seen(st), {u}, v, z);
      ReachTrans(g, {u}, parent, v, z);
    }
  }

  /** What is known about a non-root `u` being an articulation point
      survives the call on child `v` and the update after it. */
  lemma ChildCut(g: UGraph, u: int, parent: int, anc: seq<int>, st0: Search, st: Search,
                 children: int, hub: int, v: int, stc: Search, cw: int, cy: int)
    requires DfsPre(g, u, parent, st0, anc) && ScanShape(g, u, anc, st0, st) && ScanFresh(g, u, st0, st)
    requires ScanCut(g, u, parent, st0, st, children, hub)
    requires parent != -1 && Adjacent(g, u, v) && 0 <= v < g.n && st.disc[v] == -1
    requires PostShape(g, v, st, stc) && PostFresh(g, st, stc) && PostReach(g, v, st, stc)
    requires PostLow(g, v, u, st, stc, cw, cy)
    ensures ScanCut(g, u, parent, st0, AfterChild(stc, u, v, parent), children + 1, hub)
  {
    var st' := AfterChild(stc, u, v, parent);
    if stc.low[v] >= stc.disc[u] {
      if !st.ap[u] {
        ChildMark(g, u, parent, anc, st0, st, v, stc, cw, cy);
      }
    } else {
      ChildLink(g, u, parent, anc, st0, st, v, stc, cw, cy);
      forall z | Fresh(st0, st', z) && z != u && !st'.ap[u]
        ensures Reach(g, {u}, parent, z)
      {
        if st.disc[z] != -1 {
          assert Fresh(st0, st, z);
        } else {
          assert Fresh(st, stc, z);
        }
      }
    }
  }

  /** The root's first child becomes the hub: its region is fully
      discovered, and everything discovered so far hangs on it. */
  lemma RootFirstChild(g: UGraph, u: int, st0: Search, st: Search,
                       hub: int, v: int, stc: Search, cw: int, cy: int)
    requires DfsPre(g, u, -1, st0, []) && ScanShape(g, u, [], st0, st)
    requires ScanCut(g, u, -1, st0, st, 0, hub)
    requires Adjacent(g, u, v) && 0 <= v < g.n && st.disc[v] == -1
    requires PostShape(g, v, st, stc) && PostFresh(g, st, stc) && PostReach(g, v, st, stc)
    requires PostLow(g, v, u, st, stc, cw, cy)
    ensures ScanCut(g, u, -1, st0, AfterChild(stc, u, v, -1), 1, v)
  {
    var st' := AfterChild(stc, u, v, -1);
    RootFirstLow(g, u, st0, st, v, stc, cw, cy);
    Trapped(g, u, -1, [], st0, st, v, stc, cw, cy);
    assert {u} <= Seen(st);
    assert RootTrack(g, u, st0, st, 0, hub);
    assert forall z | Fresh(st0, st, z) :: z == u;
    forall z | Fresh(st0, st', z) && z != u
      ensures Reach(g, {u}, v, z)
    {
      assert !Fresh(st0, st, z);
      assert Fresh(st, stc, z);
      ReachWiden(g, Seen(st), {u}, v, z);
    }
  }

  /** A later child of the root: the hub's region stays discovered, and
      the second child lies outside it, so the root separates the two. */
  lemma RootLaterChild(g: UGraph, u: int, st0: Search, st: Search,
                       children: int, hub: int, v: int, stc: Search)
    requires DfsPre(g, u, -1, st0, []) && ScanShape(g, u, [], st0, st)
    requires ScanCut(g, u, -1, st0, st, children, hub) && children >= 1
    requires Adjacent(g, u, v) && 0 <= v < g.n && st.disc[v] == -1
    requires PostShape(g, v, st, stc)
    ensures ScanCut(g, u, -1, st0, AfterChild(stc, u, v, -1), children + 1, hub)
  {
    var st' := AfterChild(stc, u, v, -1);
    forall t | Reach(g, {u}, hub, t)
      ensures 0 <= t < g.n && st'.disc[t] != -1
    {
    }
    if children == 1 {
      AdjacentSymmetric(g, u, hub);
      ReachSelf(g, {}, hub);
      ReachExtend(g, {}, hub, hub, u);
      ReachExtend(g, {}, hub, u, v);
      assert !Reach(g, {u}, hub, v);
      assert hub != u && v != u;
    }
  }

  /** Lines 87-89, a discovered neighbour `v` other than the parent:
      `low[u] = min(low[u], disc[v])`. */
  function AfterBack(st: Search, u: int, v: int): (r: Search)
    requires 0 <= u < |st.low| && 0 <= v < |st.disc|
    ensures r.disc == st.disc && r.ap == st.ap && r.time == st.time && |r.low| == |st.low|
    ensures r.low[u] <= st.low[u] && r.low[u] <= st.disc[v]
    ensures r.low[u] == st.low[u] || r.low[u] == st.disc[v]
    ensures forall x | 0 <= x < |st.low| && x != u :: r.low[x] == st.low[x]
  {
    st.(low := st.low[u := if st.disc[v] < st.low[u] then st.disc[v] else st.low[u]])
  }

  /** What the scan knows about discoveries and marks depends on `disc`
      and `ap` only. */
  lemma SameMarks(g: UGraph, u: int, parent: int, st0: Search, st: Search, st': Search, children: int, hub: int)
    requires Sized(g, st0) && Sized(g, st) && 0 <= u < g.n
    requires ScanFresh(g, u, st0, st) && ScanCut(g, u, parent, st0, st, children, hub)
    requires st'.disc == st.disc && st'.ap == st.ap && |st'.low| == g.n
    ensures ScanFresh(g, u, st0, st') && ScanCut(g, u, parent, st0, st', children, hub)
  {
    assert forall x :: Fresh(st0, st', x) == Fresh(st0, st, x);
  }

  /** The `low` part of the scan invariant survives a discovered neighbour
      other than the parent; the edge becomes the witness when it lowers
      `low[u]`. */
  lemma BackLow(g: UGraph, u: int, parent: int, anc: seq<int>, st0: Search, st: Search,
                k: int, lw: int, ly: int, v: int)
    requires DfsPre(g, u, parent, st0, anc) && ScanShape(g, u, anc, st0, st) && ScanFresh(g, u, st0, st)
    requires 0 <= k < |g.adj[u]| && ScanLow(g, u, parent, st0, st, k, lw, ly)
    requires v == g.adj[u][k] && st.disc[v] != -1 && v != parent
    ensures var better := st.disc[v] < st.low[u];
      ScanLow(g, u, parent, st0, AfterBack(st, u, v), k + 1,
              if better then u else lw, if better then v else ly)
  {
    var st' := AfterBack(st, u, v);
    assert g.adj[u][..k + 1] == g.adj[u][..k] + [v];
    assert forall x :: Fresh(st0, st', x) == Fresh(st0, st, x);
    forall w, y | Escape(g, st0, st', u, parent, w, y) && (w == u ==> y in g.adj[u][..k + 1])
      ensures st'.low[u] <= st0.disc[y]
    {
      if w == u && y == v {
        assert st.disc[v] == st0.disc[v];
      } else {
        assert Escape(g, st0, st, u, parent, w, y) && (w == u ==> y in g.adj[u][..k]);
      }
    }
    if st.disc[v] < st.low[u] {
      assert !Fresh(st0, st, v);
      assert st.disc[v] == st0.disc[v];
      assert Escape(g, st0, st', u, parent, u, v);
    } else if st'.low[u] != st'.disc[u] {
      assert Escape(g, st0, st, u, parent, lw, ly);
    }
  }

  /** The scan invariant survives a discovered neighbour other than the
      parent. */
  lemma BackStep(g: UGraph, u: int, parent: int, anc: seq<int>, st0: Search, st: Search,
                 k: int, children: int, hub: int, lw: int, ly: int, v: int)
    requires DfsPre(g, u, parent, st0, anc)
    requires ScanOk(g, u, parent, anc, st0, st, k, children, hub, lw, ly)
    requires k < |g.adj[u]| && v == g.adj[u][k] && st.disc[v] != -1 && v != parent
    ensures var better := st.disc[v] < st.low[u];
      ScanOk(g, u, parent, anc, st0, AfterBack(st, u, v), k + 1, children, hub,
             if better then u else lw, if better then v else ly)
  {
    var st' := AfterBack(st, u, v);
    SameMarks(g, u, parent, st0, st, st', children, hub);
    BackLow(g, u, parent, anc, st0, st, k, lw, ly, v);
  }

  /** The edge back to the parent (line 87's test) changes nothing. */
  lemma SkipStep(g: UGraph, u: int, parent: int, anc: seq<int>, st0: Search, st: Search,
                 k: int, children: int, hub: int, lw: int, ly: int)
    requires DfsPre(g, u, parent, st0, anc)
    requires ScanOk(g, u, parent, anc, st0, st, k, children, hub, lw, ly)
    requires k < |g.adj[u]| && g.adj[u][k] == parent && st.disc[parent] != -1
    ensures ScanOk(g, u, parent, anc, st0, st, k + 1, children, hub, lw, ly)
  {
    assert g.adj[u][..k + 1] == g.adj[u][..k] + [parent];
  }

  /** Lines 73-84: the scan invariant survives the call on an undiscovered
      neighbour `v` and the update after it. */
  lemma ChildStep(g: UGraph, u: int, parent: int, anc: seq<int>, st0: Search, st: Search,
                  k: int, children: int, hub: int, lw: int, ly: int, v: int, stc: Search, cw: int, cy: int)
    requires DfsPre(g, u, parent, st0, anc)
    requires ScanOk(g, u, parent, anc, st0, st, k, children, hub, lw, ly)
    requires k < |g.adj[u]| && v == g.adj[u][k] && st.disc[v] == -1
    requires DfsPost(g, v, u, st, stc, cw, cy)
    ensures var better := stc.low[v] < stc.low[u];
      ScanOk(g, u, parent, anc, st0, AfterChild(stc, u, v, parent), k + 1, children + 1,
             if parent == -1 && children == 0 then v else hub,
             if better then cw else lw, if better then cy else ly)
  {
    assert Adjacent(g, u, v);
    ChildKeeps(g, u, parent, anc, st0, st, v, stc);
    ChildFresh(g, u, parent, anc, st0, st, v, stc);
    ChildSeen(g, u, parent, st, k, v, stc);
    ChildLow(g, u, parent, anc, st0, st, k, lw, ly, v, stc, cw, cy);
    if parent != -1 {
      ChildCut(g, u, parent, anc, st0, st, children, hub, v, stc, cw, cy);
    } else if children == 0 {
      RootFirstChild(g, u, st0, st, hub, v, stc, cw, cy);
    } else {
      RootLaterChild(g, u, st0, st, children, hub, v, stc);
    }
  }

  /** Lines 93-95: a root with more than one child is marked. */
  function RootMark(st: Search, u: int, parent: int, children: int): (r: Search)
    requires 0 <= u < |st.ap|
    ensures r.disc == st.disc && r.low == st.low && r.time == st.time && |r.ap| == |st.ap|
    ensures r.ap[u] == (st.ap[u] || (parent == -1 && children > 1))
    ensures forall x | 0 <= x < |st.ap| && x != u :: r.ap[x] == st.ap[x]
  {
    if parent == -1 && children > 1 then st.(ap := st.ap[u := true]) else st
  }

  /** A non-root `u` whose scan left it unmarked is no articulation point:
      each of its neighbours is either discovered under it (and hangs on
      the parent) or an active call (joined to the parent by the chain). */
  lemma NonRootFinish(g: UGraph, u: int, parent: int, anc: seq<int>, st0: Search, st: Search,
                      children: int, hub: int)
    requires DfsPre(g, u, parent, st0, anc) && parent != -1
    requires ScanShape(g, u, anc, st0, st) && ScanSeen(g, u, st, |g.adj[u]|)
    requires ScanCut(g, u, parent, st0, st, children, hub)
    ensures st.ap[u] <==> CutVertex(g, u)
  {
    if !st.ap[u] {
      forall z | z in g.adj[u] && z != u
        ensures Reach(g, {u}, parent, z)
      {
        var j :| 0 <= j < |g.adj[u]| && g.adj[u][j] == z;
        assert st.disc[z] != -1;
        if st0.disc[z] == -1 {
          assert Fresh(st0, st, z);
        } else {
          assert u in g.adj[z];
          assert !Explored(g, st0, z);
          assert z in anc;
          var i :| 0 <= i < |anc| && anc[i] == z;
          ChainReach(g, anc, u, i);
        }
      }
      NotCut(g, u, parent);
    }
  }

  /** A root is marked exactly when it has more than one child: with at
      most one, every neighbour hangs on the hub. */
  lemma RootFinish(g: UGraph, u: int, anc: seq<int>, st0: Search, st: Search, children: int, hub: int)
    requires DfsPre(g, u, -1, st0, anc)
    requires ScanShape(g, u, anc, st0, st) && ScanSeen(g, u, st, |g.adj[u]|)
    requires ScanCut(g, u, -1, st0, st, children, hub)
    ensures RootMark(st, u, -1, children).ap[u] <==> CutVertex(g, u)
  {
    assert anc == [];
    if children <= 1 {
      forall z | z in g.adj[u]
        ensures z == u || Reach(g, {u}, hub, z)
      {
        var j :| 0 <= j < |g.adj[u]| && g.adj[u][j] == z;
        assert st.disc[z] != -1;
        assert u in g.adj[z];
        assert !Explored(g, st0, z);
        assert Fresh(st0, st, z);
      }
      NotCut(g, u, hub);
    }
  }

  /** After the scan every vertex reachable from `u` through undiscovered
      ones has been discovered: the discovered region is closed under
      edges into undiscovered vertices. */
  lemma FinishReach(g: UGraph, u: int, parent: int, anc: seq<int>, st0: Search, st: Search)
    requires DfsPre(g, u, parent, st0, anc)
    requires ScanShape(g, u, anc, st0, st) && ScanFresh(g, u, st0, st) && ScanSeen(g, u, st, |g.adj[u]|)
    ensures PostReach(g, u, st0, st)
  {
    var marked := seq(g.n, x requires 0 <= x < g.n => Fresh(st0, st, x));
    forall x, y | 0 <= x < g.n && marked[x] && Adjacent(g, x, y) && 0 <= y < g.n && y !in Seen(st0)
      ensures marked[y]
    {
      if x == u {
        var j :| 0 <= j < |g.adj[u]| && g.adj[u][j] == y;
      } else {
        assert x !in anc + [u];
      }
    }
    forall x | 0 <= x < g.n && Reach(g, Seen(st0), u, x)
      ensures Fresh(st0, st, x)
    {
      var p :| Walk(g, Seen(st0), p) && p[0] == u && p[|p| - 1] == x;
      ClosedHoldsReach(g, Seen(st0), marked, p);
    }
  }

  /** After the scan, every vertex discovered since the call began is
      finished, and marked exactly when it is an articulation point. */
  lemma FinishFresh(g: UGraph, u: int, parent: int, anc: seq<int>, st0: Search, st: Search,
                    children: int, hub: int)
    requires DfsPre(g, u, parent, st0, anc)
    requires ScanShape(g, u, anc, st0, st) && ScanFresh(g, u, st0, st) && ScanSeen(g, u, st, |g.adj[u]|)
    requires ScanCut(g, u, parent, st0, st, children, hub)
    ensures PostFresh(g, st0, RootMark(st, u, parent, children))
  {
    var stf := RootMark(st, u, parent, children);
    if parent == -1 {
      RootFinish(g, u, anc, st0, st, children, hub);
    } else {
      NonRootFinish(g, u, parent, anc, st0, st, children, hub);
    }
    assert forall x :: Fresh(st0, stf, x) == Fresh(st0, st, x);
    forall x | Fresh(st0, stf, x)
      ensures Explored(g, stf, x)
    {
      if x == u {
        forall y | y in g.adj[u]
          ensures 0 <= y < |stf.disc| && stf.disc[y] != -1
        {
          var j :| 0 <= j < |g.adj[u]| && g.adj[u][j] == y;
        }
      } else {
        assert x !in anc + [u];
      }
    }
  }

  /** After the scan, `low[u]` is bounded by every escaping edge. */
  lemma FinishLow(g: UGraph, u: int, parent: int, anc: seq<int>, st0: Search, st: Search,
                  children: int, lw: int, ly: int)
    requires DfsPre(g, u, parent, st0, anc) && Sized(g, st)
    requires ScanLow(g, u, parent, st0, st, |g.adj[u]|, lw, ly)
    ensures PostLow(g, u, parent, st0, RootMark(st, u, parent, children), lw, ly)
  {
    var stf := RootMark(st, u, parent, children);
    assert g.adj[u][..|g.adj[u]|] == g.adj[u];
    assert forall x :: Fresh(st0, stf, x) == Fresh(st0, st, x);
  }

  /** Lines 90-95: the scan invariant over all neighbours, with the root
      mark applied, is the postcondition of `dfsAP`. */
  lemma Finish(g: UGraph, u: int, parent: int, anc: seq<int>, st0: Search, st: Search,
               children: int, hub: int, lw: int, ly: int)
    requires DfsPre(g, u, parent, st0, anc)
    requires ScanOk(g, u, parent, anc, st0, st, |g.adj[u]|, children, hub, lw, ly)
    ensures DfsPost(g, u, parent, st0, RootMark(st, u, parent, children), lw, ly)
  {
    var stf := RootMark(st, u, parent, children);
    FinishReach(g, u, parent, anc, st0, st);
    FinishFresh(g, u, parent, anc, st0, st, children, hub);
    FinishLow(g, u, parent, anc, st0, st, children, lw, ly);
    assert forall x :: Fresh(st0, stf, x) == Fresh(st0, st, x);
  }

  /** `dfsAP(u, parent)` (lines 67-96): discovers exactly the vertices
      reachable from `u` through undiscovered ones, finishes them, marks
      each exactly when it is an articulation point, and leaves `low[u]`
      the least discovery time among `u` and the far ends of its escaping
      edges (`lw`, `ly` name the edge that attains it).  The recursion ends
      because every call discovers a vertex. */
  method DfsAP(g: UGraph, u: int, parent: int, st0: Search, ghost anc: seq<int>)
    returns (st: Search, ghost lw: int, ghost ly: int)
    requires DfsPre(g, u, parent, st0, anc)
    ensures PostShape(g, u, st0, st) && PostFresh(g, st0, st) && PostReach(g, u, st0, st)
    ensures PostLow(g, u, parent, st0, st, lw, ly)
    decreases Unseen(st0)
  {
    var t := st0.time + 1;
    st := Search(st0.disc[u := t], st0.low[u := t], st0.ap, t);
    ScanStart(g, u, parent, anc, st0, st);
    lw, ly := -1, -1;
    var children := 0;
    ghost var hub := -1;
    var k := 0;
    while k < |g.adj[u]|
      invariant ScanOk(g, u, parent, anc, st0, st, k, children, hub, lw, ly)
      decreases |g.adj[u]| - k
    {
      var v := g.adj[u][k];
      if st.disc[v] == -1 {
        ChildPre(g, u, parent, anc, st0, st, k, children, hub, lw, ly, v);
        var stc, cw, cy := DfsAP(g, v, u, st, anc + [u]);
        st, children, hub, lw, ly := Adopt(g, u, parent, anc, st0, st, k, children, hub, lw, ly, v, stc, cw, cy);
      } else {
        st, lw, ly := Revisit(g, u, parent, anc, st0, st, k, children, hub, lw, ly, v);
      }
      k := k + 1;
    }
    Finish(g, u, parent, anc, st0, st, children, hub, lw, ly);
    st := RootMark(st, u, parent, children);
  }

  /** Lines 74-84 after the call on the undiscovered neighbour `v`: take
      the child's `low`, count the child, remember the root's first child. */
  method Adopt(g: UGraph, u: int, parent: int, ghost anc: seq<int>, st0: Search, st: Search,
               k: int, children: int, ghost hub: int, ghost lw: int, ghost ly: int,
               v: int, stc: Search, ghost cw: int, ghost cy: int)
    returns (st': Search, children': int, ghost hub': int, ghost lw': int, ghost ly': int)
    requires DfsPre(g, u, parent, st0, anc)
    requires ScanOk(g, u, parent, anc, st0, st, k, children, hub, lw, ly)
    requires k < |g.adj[u]| && v == g.adj[u][k] && st.disc[v] == -1
    requires DfsPost(g, v, u, st, stc, cw, cy)
    ensures ScanShape(g, u, anc, st0, st') && ScanFresh(g, u, st0, st') && ScanSeen(g, u, st', k + 1)
    ensures ScanOk(g, u, parent, anc, st0, st', k + 1, children', hub', lw', ly')
  {
    ChildStep(g, u, parent, anc, st0, st, k, children, hub, lw, ly, v, stc, cw, cy);
    lw', ly' := lw, ly;
    if stc.low[v] < stc.low[u] {
      lw', ly' := cw, cy;
    }
    hub' := hub;
    if parent == -1 && children == 0 {
      hub' := v;
    }
    st' := AfterChild(stc, u, v, parent);
    children' := children + 1;
  }

  /** Lines 86-89 for a neighbour `v` already discovered: a back edge
      lowers `low[u]` unless it leads to the parent. */
  method Revisit(g: UGraph, u: int, parent: int, ghost anc: seq<int>, st0: Search, st: Search,
                 k: int, children: int, ghost hub: int, ghost lw: int, ghost ly: int, v: int)
    returns (st': Search, ghost lw': int, ghost ly': int)
    requires DfsPre(g, u, parent, st0, anc)
    requires ScanOk(g, u, parent, anc, st0, st, k, children, hub, lw, ly)
    requires k < |g.adj[u]| && v == g.adj[u][k] && st.disc[v] != -1
    ensures ScanShape(g, u, anc, st0, st') && ScanFresh(g, u, st0, st') && ScanSeen(g, u, st', k + 1)
    ensures ScanOk(g, u, parent, anc, st0, st', k + 1, children, hub, lw', ly')
  {
    st', lw', ly' := st, lw, ly;
    if v != parent {
      BackStep(g, u, parent, anc, st0, st, k, children, hub, lw, ly, v);
      if st.disc[v] < st.low[u] {
        lw', ly' := u, v;
      }
      st' := AfterBack(st, u, v);
    } else {
      SkipStep(g, u, parent, anc, st0, st, k, children, hub, lw, ly);
    }
  }

  /** Between two roots of `findArticulationPoints` (lines 49-53): every
      discovered vertex is finished and correctly marked, and the first
      `i` vertices are discovered. */
  ghost predicate RootsInv(g: UGraph, st: Search, i: int)
  {
    && Valid(g) && Sized(g, st) && 0 <= i <= g.n && Clocked(st) && Unmarked(st)
    && ClosedExcept(g, st, [])
    && (forall x | 0 <= x < g.n && st.disc[x] != -1 :: st.ap[x] <==> CutVertex(g, x))
    && (forall j | 0 <= j < i :: st.disc[j] != -1)
  }

  /** A search from undiscovered root `i` keeps the roots invariant and
      discovers `i`. */
  lemma RootDone(g: UGraph, i: int, st0: Search, st: Search, lw: int, ly: int)
    requires RootsInv(g, st0, i) && i < g.n && st0.disc[i] == -1
    requires DfsPost(g, i, -1, st0, st, lw, ly)
    ensures RootsInv(g, st, i + 1)
  {
    forall x | 0 <= x < g.n && st.disc[x] != -1
      ensures Explored(g, st, x) && (st.ap[x] <==> CutVertex(g, x))
    {
      if st0.disc[x] != -1 {
        ExploredGrows(g, st0, st, x);
      } else {
        assert Fresh(st0, st, x);
      }
    }
  }

  /** Lines 49-53: a search from every vertex still undiscovered leaves
      every vertex discovered, finished and correctly marked. */
  method SearchAll(g: UGraph) returns (st: Search)
    requires Valid(g)
    ensures RootsInv(g, st, g.n)
  {
    st := Search(seq(g.n, _ => -1), seq(g.n, _ => -1), seq(g.n, _ => false), 0);
    var i := 0;
    while i < g.n
      invariant RootsInv(g, st, i)
    {
      st := Root(g, st, i);
      i := i + 1;
    }
  }

  /** One round of lines 49-53: search from `i` when it is still
      undiscovered. */
  method Root(g: UGraph, st0: Search, i: int) returns (st: Search)
    requires RootsInv(g, st0, i) && i < g.n
    ensures RootsInv(g, st, i + 1)
  {
    st := st0;
    if st0.disc[i] == -1 {
      ghost var lw, ly;
      st, lw, ly := DfsAP(g, i, -1, st0, []);
      RootDone(g, i, st0, st, lw, ly);
    }
  }

  /** Lines 56-61: the marked vertices in increasing order. */
  method Collect(ap: seq<bool>) returns (aps: seq<int>)
    ensures forall x :: x in aps <==> 0 <= x < |ap| && ap[x]
    ensures forall a, b | 0 <= a < b < |aps| :: aps[a] < aps[b]
  {
    aps := [];
    var i := 0;
    while i < |ap|
      invariant 0 <= i <= |ap|
      invariant forall x :: x in aps <==> 0 <= x < i && ap[x]
      invariant forall a, b | 0 <= a < b < |aps| :: aps[a] < aps[b]
      invariant forall a | 0 <= a < |aps| :: aps[a] < i
    {
      if ap[i] {
        aps := aps + [i];
      }
      i := i + 1;
    }
  }

  /** `findArticulationPoints()` (lines 42-64): the articulation points of
      the graph, in increasing order. */
  method FindArticulationPoints(g: UGraph) returns (aps: seq<int>)
    requires Valid(g)
    ensures forall x :: x in aps <==> 0 <= x < g.n && CutVertex(g, x)
    ensures forall a, b | 0 <= a < b < |aps| :: aps[a] < aps[b]
  {
    var st := SearchAll(g);
    aps := Collect(st.ap);
  }
}
