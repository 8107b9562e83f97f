/** Facts about walks along an edge list that the negative-cycle test and
    Johnson's algorithm rest on: walks join and split, a potential that no
    edge violates bounds every walk from below, and a walk that revisits a
    vertex can drop the closed part between the visits without getting
    heavier unless that part is a negative cycle. */
module Walks {
  import opened WeightedDigraph

  /** Both endpoints of every edge are among the `n` vertices. */
  ghost predicate EndpointsIn(edges: seq<WEdge>, n: int)
  {
    forall k | 0 <= k < |edges| :: 0 <= edges[k].source < n && 0 <= edges[k].target < n
  }

  /** Some closed walk has negative total weight. */
  ghost predicate HasNegativeCycle(edges: seq<WEdge>)
  {
    exists v, p :: EdgeWalk(edges, v, p, v) && WalkWeight(edges, p) < 0
  }

  /** No edge `s -> t` of weight `w` has `pot[t] > pot[s] + w`. */
  ghost predicate Potential(edges: seq<WEdge>, pot: seq<int>)
  {
    && EndpointsIn(edges, |pot|)
    && forall k | 0 <= k < |edges| ::
         pot[edges[k].target] <= pot[edges[k].source] + edges[k].weight
  }

  /** The vertex a walk starting at `from` has reached after `k` edges. */
  function At(edges: seq<WEdge>, from: int, p: seq<int>, k: int): int
  {
    if k <= 0 || k > |p| then from
    else if 0 <= p[k - 1] < |edges| then edges[p[k - 1]].target
    else from
  }

  lemma {:induction false} WalkAppend(edges: seq<WEdge>, from: int, p: seq<int>, mid: int, q: seq<int>, to: int)
    requires EdgeWalk(edges, from, p, mid) && EdgeWalk(edges, mid, q, to)
    ensures EdgeWalk(edges, from, p + q, to)
    ensures WalkWeight(edges, p + q) == WalkWeight(edges, p) + WalkWeight(edges, q)
    decreases |q|
  {
    if |q| == 0 {
      assert p + q == p;
    } else {
      var j := q[|q| - 1];
      var q' := q[..|q| - 1];
      WalkAppend(edges, from, p, mid, q', edges[j].source);
      assert (p + q)[..|p + q| - 1] == p + q';
    }
  }

  /** Cutting a walk after `k` edges leaves two walks that meet at the
      vertex reached there, and their weights add up. */
  lemma {:induction false} WalkSplit(edges: seq<WEdge>, from: int, p: seq<int>, to: int, k: int)
    requires EdgeWalk(edges, from, p, to) && 0 <= k <= |p|
    ensures EdgeWalk(edges, from, p[..k], At(edges, from, p, k))
    ensures EdgeWalk(edges, At(edges, from, p, k), p[k..], to)
    ensures WalkWeight(edges, p) == WalkWeight(edges, p[..k]) + WalkWeight(edges, p[k..])
    decreases |p|
  {
    if k == |p| {
      assert p[..k] == p && p[k..] == [];
    } else {
      var j := p[|p| - 1];
      var p' := p[..|p| - 1];
      WalkSplit(edges, from, p', edges[j].source, k);
      assert p'[..k] == p[..k];
      assert At(edges, from, p', k) == At(edges, from, p, k);
      var r := p[k..];
      assert r[..|r| - 1] == p'[k..] && r[|r| - 1] == j;
    }
    assert p[..k] + p[k..] == p;
    WalkAppend(edges, from, p[..k], At(edges, from, p, k), p[k..], to);
  }

  /** Every vertex a walk passes is an endpoint, hence in range. */
  lemma AtInRange(edges: seq<WEdge>, n: int, from: int, p: seq<int>, to: int, k: int)
    requires EndpointsIn(edges, n) && 0 <= from < n && EdgeWalk(edges, from, p, to) && 0 <= k <= |p|
    ensures 0 <= At(edges, from, p, k) < n
  {
    WalkSplit(edges, from, p, to, k);
    if 0 < k {
      var q := p[..k];
      assert q[|q| - 1] == p[k - 1];
    }
  }

  /** Under a potential, a walk from `from` to `to` weighs at least
      `pot[to] - pot[from]`. */
  lemma {:induction false} Telescope(edges: seq<WEdge>, pot: seq<int>, from: int, p: seq<int>, to: int)
    requires Potential(edges, pot) && 0 <= from < |pot| && EdgeWalk(edges, from, p, to)
    ensures 0 <= to < |pot| && WalkWeight(edges, p) >= pot[to] - pot[from]
    decreases |p|
  {
    if |p| > 0 {
      var j := p[|p| - 1];
      Telescope(edges, pot, from, p[..|p| - 1], edges[j].source);
    }
  }

  /** A potential rules out negative cycles. */
  lemma PotentialExcludesNegativeCycle(edges: seq<WEdge>, pot: seq<int>)
    requires Potential(edges, pot)
    ensures !HasNegativeCycle(edges)
  {
    forall v, p | EdgeWalk(edges, v, p, v)
      ensures WalkWeight(edges, p) >= 0
    {
      if |p| > 0 {
        var j := p[|p| - 1];
        assert 0 <= edges[j].target < |pot|;
        Telescope(edges, pot, v, p, v);
      }
    }
  }

  lemma {:induction false} SubsetOfRange(a: set<int>, n: nat)
    requires forall x | x in a :: 0 <= x < n
    ensures |a| <= n
    decreases n
  {
    if n > 0 {
      var b := a - {n - 1};
      SubsetOfRange(b, n - 1);
      assert a <= b + {n - 1};
    } else {
      assert forall x :: x !in a;
      assert a == {};
    }
  }

  lemma {:induction false} DistinctElements(s: seq<int>)
    requires forall a, b | 0 <= a < b < |s| :: s[a] != s[b]
    ensures |set x | x in s| == |s|
    decreases |s|
  {
    if |s| > 0 {
      var s' := s[..|s| - 1];
      DistinctElements(s');
      assert (set x | x in s) == (set x | x in s') + {s[|s| - 1]};
      assert s[|s| - 1] !in s';
    }
  }

  /** More than `n` values below `n` repeat one. */
  lemma Pigeonhole(s: seq<int>, n: nat)
    requires |s| > n && forall k | 0 <= k < |s| :: 0 <= s[k] < n
    ensures exists a, b :: 0 <= a < b < |s| && s[a] == s[b]
  {
    if forall a, b | 0 <= a < b < |s| :: s[a] != s[b] {
      DistinctElements(s);
      SubsetOfRange((set x | x in s), n);
      assert false;
    }
  }

  /** A walk of at least `n` edges over `n` vertices passes some vertex twice. */
  lemma Revisit(edges: seq<WEdge>, n: nat, from: int, p: seq<int>, to: int)
    requires EndpointsIn(edges, n) && 0 <= from < n && EdgeWalk(edges, from, p, to) && |p| >= n
    ensures exists a, b :: 0 <= a < b <= |p| && At(edges, from, p, a) == At(edges, from, p, b)
  {
    var vs := seq(|p| + 1, k => At(edges, from, p, k));
    forall k | 0 <= k < |vs|
      ensures 0 <= vs[k] < n
    {
      AtInRange(edges, n, from, p, to, k);
    }
    Pigeonhole(vs, n);
    var a, b :| 0 <= a < b < |vs| && vs[a] == vs[b];
    assert At(edges, from, p, a) == At(edges, from, p, b);
  }

  /** Dropping the closed stretch between two visits of one vertex leaves
      a walk between the same ends, no heavier when that stretch is not a
      negative cycle. */
  lemma DropClosed(edges: seq<WEdge>, from: int, p: seq<int>, to: int, a: int, b: int)
    requires EdgeWalk(edges, from, p, to) && 0 <= a < b <= |p|
    requires At(edges, from, p, a) == At(edges, from, p, b)
    requires !HasNegativeCycle(edges)
    ensures EdgeWalk(edges, from, p[..a] + p[b..], to)
    ensures WalkWeight(edges, p[..a] + p[b..]) <= WalkWeight(edges, p)
  {
    var v := At(edges, from, p, a);
    WalkSplit(edges, from, p, to, a);
    var rest := p[a..];
    WalkSplit(edges, v, rest, to, b - a);
    assert rest[..b - a] == p[a..b] && rest[b - a..] == p[b..];
    assert At(edges, v, rest, b - a) == At(edges, from, p, b);
    assert EdgeWalk(edges, v, p[a..b], v);
    WalkAppend(edges, from, p[..a], v, p[b..], to);
  }

  /** Without negative cycles, any walk can be replaced by one of fewer
      than `n` edges between the same ends that is no heavier. */
  lemma {:induction false} Shorten(edges: seq<WEdge>, n: nat, from: int, p: seq<int>, to: int)
    requires EndpointsIn(edges, n) && 0 <= from < n && EdgeWalk(edges, from, p, to)
    requires !HasNegativeCycle(edges)
    ensures exists q :: EdgeWalk(edges, from, q, to) && |q| < n && WalkWeight(edges, q) <= WalkWeight(edges, p)
    decreases |p|
  {
    if |p| >= n {
      Revisit(edges, n, from, p, to);
      var a, b :| 0 <= a < b <= |p| && At(edges, from, p, a) == At(edges, from, p, b);
      DropClosed(edges, from, p, to, a, b);
      Shorten(edges, n, from, p[..a] + p[b..], to);
    } else {
      assert EdgeWalk(edges, from, p, to) && |p| < n;
    }
  }
}
