/** LAB_03's `PuzzleGraph`: nodes kept by id, adjacency lists of
    `GraphEdge`s kept by the id of their source, and the dynamic generation
    of a node's neighbours by sliding its blank. */
module PuzzleGraph {
  import opened Outcome
  import opened Board
  import opened GraphNode

  /** `GraphEdge`: the ids of both ends, the move's label and its cost. */
  datatype Edge = Edge(from: string, to: string, move: string, cost: int)

  datatype PGraph = PGraph(nodes: map<string, Node>, adjacency: map<string, seq<Edge>>)

  /** The constructor: no nodes, no lists. */
  function EmptyGraph(): PGraph
  {
    PGraph(map[], map[])
  }

  /** The list kept for `id`, empty when there is none. */
  function ListOf(g: PGraph, id: string): seq<Edge>
  {
    if id in g.adjacency then g.adjacency[id] else []
  }

  /** `addNode` (lines 332-337): the node is stored under its id, replacing
      any node stored there, and gets an empty list unless it has one. */
  function AddNode(g: PGraph, n: Node): (r: PGraph)
    ensures r.nodes == g.nodes[n.id := n]
    ensures r.adjacency.Keys == g.adjacency.Keys + {n.id}
    ensures forall id :: ListOf(r, id) == ListOf(g, id)
  {
    PGraph(g.nodes[n.id := n], if n.id in g.adjacency then g.adjacency else g.adjacency[n.id := []])
  }

  /** `addEdge` (lines 339-347): both ends are added as nodes, then one edge
      of cost 1 goes at the end of the source's list. */
  function AddEdge(g: PGraph, from: Node, to: Node, move: string): (r: PGraph)
    ensures r.nodes == g.nodes[from.id := from][to.id := to]
    ensures r.adjacency.Keys == g.adjacency.Keys + {from.id, to.id}
    ensures ListOf(r, from.id) == ListOf(g, from.id) + [Edge(from.id, to.id, move, 1)]
    ensures forall id | id != from.id :: ListOf(r, id) == ListOf(g, id)
  {
    var g2 := AddNode(AddNode(g, from), to);
    PGraph(g2.nodes, g2.adjacency[from.id := g2.adjacency[from.id] + [Edge(from.id, to.id, move, 1)]])
  }

  /** `hasNode` (lines 363-365). */
  predicate HasNode(g: PGraph, id: string)
  {
    id in g.nodes
  }

  /** `getNode` (lines 367-373): the node stored under `id`, or the
      exception the code throws. */
  function GetNode(g: PGraph, id: string): (r: Result<Node>)
    ensures r.Ok? <==> HasNode(g, id)
    ensures r.Ok? ==> r.value == g.nodes[id]
    ensures r.Invalid? ==> r.message == "Nó não encontrado: " + id
  {
    if id in g.nodes then Ok(g.nodes[id]) else Invalid("Nó não encontrado: " + id)
  }

  /** `getNodeCount()` (PuzzleGraph.hpp line 92). */
  function NodeCount(g: PGraph): nat
  {
    |g.nodes|
  }

  /** Adding a node adds one exactly when its id is new. */
  lemma AddNodeCount(g: PGraph, n: Node)
    ensures NodeCount(AddNode(g, n)) == NodeCount(g) + (if n.id in g.nodes then 0 else 1)
  {
    var r := AddNode(g, n);
    if n.id in g.nodes {
      assert r.nodes.Keys == g.nodes.Keys;
    } else {
      assert r.nodes.Keys == g.nodes.Keys + {n.id};
    }
  }

  /** The nodes the edges of a list lead to, skipping edges whose target is
      not stored (the loop of lines 352-358). */
  function Targets(nodes: map<string, Node>, edges: seq<Edge>): (r: seq<Node>)
    ensures |r| <= |edges|
    ensures forall x | x in r :: exists e | e in edges :: e.to in nodes && x == nodes[e.to]
  {
    if |edges| == 0 then []
    else
      var e := edges[|edges| - 1];
      Targets(nodes, edges[..|edges| - 1]) + (if e.to in nodes then [nodes[e.to]] else [])
  }

  /** `getNeighbors` (lines 349-361). */
  function GetNeighbors(g: PGraph, id: string): seq<Node>
  {
    Targets(g.nodes, ListOf(g, id))
  }

  /** Every list belongs to a stored node, holds edges leaving it, and
      leads to stored nodes. */
  ghost predicate Closed(g: PGraph)
  {
    && g.adjacency.Keys == g.nodes.Keys
    && forall id, e | id in g.adjacency && e in g.adjacency[id] :: e.from == id && e.to in g.nodes
  }

  lemma EmptyClosed()
    ensures Closed(EmptyGraph())
  {
  }

  lemma AddNodeClosed(g: PGraph, n: Node)
    requires Closed(g)
    ensures Closed(AddNode(g, n))
  {
    var r := AddNode(g, n);
    forall id, e | id in r.adjacency && e in r.adjacency[id]
      ensures e.from == id && e.to in r.nodes
    {
      assert ListOf(r, id) == ListOf(g, id);
    }
  }

  lemma AddEdgeClosed(g: PGraph, from: Node, to: Node, move: string)
    requires Closed(g)
    ensures Closed(AddEdge(g, from, to, move))
  {
    var r := AddEdge(g, from, to, move);
    forall id, e | id in r.adjacency && e in r.adjacency[id]
      ensures e.from == id && e.to in r.nodes
    {
      if id == from.id {
        assert e in ListOf(g, from.id) + [Edge(from.id, to.id, move, 1)];
      } else {
        assert ListOf(r, id) == ListOf(g, id);
      }
    }
  }

  lemma {:induction false} TargetsAll(nodes: map<string, Node>, edges: seq<Edge>)
    requires forall e | e in edges :: e.to in nodes
    ensures |Targets(nodes, edges)| == |edges|
    ensures forall t | 0 <= t < |edges| :: Targets(nodes, edges)[t] == nodes[edges[t].to]
    decreases |edges|
  {
    if |edges| > 0 {
      var init := edges[..|edges| - 1];
      assert forall e | e in init :: e in edges;
      TargetsAll(nodes, init);
    }
  }

  /** In a closed graph every edge of a node yields one neighbour, in the
      order of its list. */
  lemma NeighborsOfClosed(g: PGraph, id: string)
    requires Closed(g)
    ensures var r, l := GetNeighbors(g, id), ListOf(g, id);
      |r| == |l| && forall t | 0 <= t < |l| :: r[t] == g.nodes[l[t].to]
  {
    TargetsAll(g.nodes, ListOf(g, id));
  }

  lemma TargetsSnoc(nodes: map<string, Node>, edges: seq<Edge>, e: Edge)
    requires e.to in nodes
    ensures Targets(nodes, edges + [e]) == Targets(nodes, edges) + [nodes[e.to]]
  {
    assert (edges + [e])[..|edges|] == edges;
  }

  /** After `addEdge(from, to, m)` the last neighbour of `from` is `to`. */
  lemma NeighborsAfterAddEdge(g: PGraph, from: Node, to: Node, move: string)
    ensures var r := AddEdge(g, from, to, move);
      GetNeighbors(r, from.id) == Targets(r.nodes, ListOf(g, from.id)) + [to]
  {
    var r := AddEdge(g, from, to, move);
    TargetsSnoc(r.nodes, ListOf(g, from.id), Edge(from.id, to.id, move, 1));
  }

  /** The number of edges in the lists of `keys`. */
  ghost function EdgeTotal(adj: map<string, seq<Edge>>, keys: set<string>): nat
    requires keys <= adj.Keys
    decreases keys
  {
    if keys == {} then 0 else var x :| x in keys; |adj[x]| + EdgeTotal(adj, keys - {x})
  }

  /** Any list can be counted first. */
  lemma EdgeTotalRemove(adj: map<string, seq<Edge>>, keys: set<string>, y: string)
    requires keys <= adj.Keys && y in keys
    ensures EdgeTotal(adj, keys) == |adj[y]| + EdgeTotal(adj, keys - {y})
    decreases keys
  {
    var x :| x in keys && EdgeTotal(adj, keys) == |adj[x]| + EdgeTotal(adj, keys - {x});
    if x != y {
      EdgeTotalRemove(adj, keys - {x}, y);
      EdgeTotalRemove(adj, keys - {y}, x);
      assert keys - {x} - {y} == keys - {y} - {x};
    }
  }

  /** Maps that agree on `keys` count the same. */
  lemma EdgeTotalAgree(a: map<string, seq<Edge>>, b: map<string, seq<Edge>>, keys: set<string>)
    requires keys <= a.Keys && keys <= b.Keys
    requires forall x | x in keys :: |a[x]| == |b[x]|
    ensures EdgeTotal(a, keys) == EdgeTotal(b, keys)
    decreases keys
  {
    if keys != {} {
      var x :| x in keys;
      EdgeTotalRemove(a, keys, x);
      EdgeTotalRemove(b, keys, x);
      EdgeTotalAgree(a, b, keys - {x});
    }
  }

  /** The number of edges of the graph. */
  ghost function EdgeCount(g: PGraph): nat
  {
    EdgeTotal(g.adjacency, g.adjacency.Keys)
  }

  /** `getEdgeCount()` (lines 413-419): the lengths of all lists, summed in
      whatever order the map yields them. */
  method GetEdgeCount(g: PGraph) returns (count: int)
    ensures count == EdgeCount(g)
  {
    count := 0;
    var rest := g.adjacency.Keys;
    while rest != {}
      invariant rest <= g.adjacency.Keys
      invariant count + EdgeTotal(g.adjacency, rest) == EdgeCount(g)
      decreases rest
    {
      var x :| x in rest;
      EdgeTotalRemove(g.adjacency, rest, x);
      count := count + |g.adjacency[x]|;
      rest := rest - {x};
    }
  }

  /** Changing one list changes the count by the change in its length. */
  lemma EdgeTotalUpdate(adj: map<string, seq<Edge>>, id: string, l: seq<Edge>)
    ensures var before := if id in adj then |adj[id]| else 0;
      EdgeTotal(adj[id := l], adj.Keys + {id}) + before == EdgeTotal(adj, adj.Keys) + |l|
  {
    var adj' := adj[id := l];
    EdgeTotalRemove(adj', adj.Keys + {id}, id);
    var rest := adj.Keys - {id};
    assert adj.Keys + {id} - {id} == rest;
    EdgeTotalAgree(adj', adj, rest);
    if id in adj {
      EdgeTotalRemove(adj, adj.Keys, id);
    } else {
      assert adj.Keys == rest;
    }
  }

  /** Adding a node never changes the number of edges. */
  lemma AddNodeEdgeCount(g: PGraph, n: Node)
    ensures EdgeCount(AddNode(g, n)) == EdgeCount(g)
  {
    if n.id !in g.adjacency {
      EdgeTotalUpdate(g.adjacency, n.id, []);
    }
  }

  /** `addEdge` adds exactly one edge. */
  lemma AddEdgeCount(g: PGraph, from: Node, to: Node, move: string)
    ensures EdgeCount(AddEdge(g, from, to, move)) == EdgeCount(g) + 1
  {
    var g1 := AddNode(g, from);
    var g2 := AddNode(g1, to);
    AddNodeEdgeCount(g, from);
    AddNodeEdgeCount(g1, to);
    var l := g2.adjacency[from.id] + [Edge(from.id, to.id, move, 1)];
    EdgeTotalUpdate(g2.adjacency, from.id, l);
    assert g2.adjacency.Keys + {from.id} == g2.adjacency.Keys;
    var r := AddEdge(g, from, to, move);
    assert r.adjacency == g2.adjacency[from.id := l];
    assert r.adjacency.Keys == g2.adjacency.Keys + {from.id};
    assert EdgeCount(r) == EdgeTotal(g2.adjacency[from.id := l], g2.adjacency.Keys + {from.id});
    assert EdgeCount(g1) == EdgeCount(g);
    assert EdgeCount(g2) == EdgeCount(g1);
  }

  /** `generateNeighbors` (lines 390-411) with `isValidMove` and `makeMove`
      (lines 375-388): for each move UP, DOWN, LEFT, RIGHT that keeps the
      blank on the board, the node reached by sliding it, and the move's
      label.  The blank is where `findEmptyPosition` put it; a node
      without one has no such position and is not accepted. */
  function GenerateNeighbors(node: Node): (r: seq<(Node, string)>)
    requires WellFormed(node) && node.empty.Some?
    ensures var ms := Slides(node.size, node.empty.value);
      && |r| == |ms|
      && forall t | 0 <= t < |r| ::
           && InBounds(node.size, Step(node.empty.value, ms[t]))
           && r[t].0 == FromState(MoveBlank(node.state, node.size, node.empty.value, ms[t]))
           && r[t].1 == Name(ms[t])
  {
    var e := node.empty.value;
    var ms := Slides(node.size, e);
    seq(|ms|, t requires 0 <= t < |ms| => (FromState(MoveBlank(node.state, node.size, e, ms[t])), Name(ms[t])))
  }

  /** A node has between two and four neighbours, each a well-formed node
      whose blank sits where the old one slid, and each leads back to the
      node by the opposite move. */
  lemma NeighborsProperties(node: Node)
    requires WellFormed(node) && node.empty.Some? && node.size >= 2
    requires SingleBlank(node.state, node.size, node.empty.value.0, node.empty.value.1)
    ensures var r := GenerateNeighbors(node);
      && 2 <= |r| <= 4
      && forall t | 0 <= t < |r| ::
           var ms, e := Slides(node.size, node.empty.value), node.empty.value;
           && WellFormed(r[t].0) && r[t].0.empty == Some(Step(e, ms[t]))
           && MoveBlank(r[t].0.state, node.size, Step(e, ms[t]), Opposite(ms[t])) == node.state
  {
    var r := GenerateNeighbors(node);
    var ms, e := Slides(node.size, node.empty.value), node.empty.value;
    SlidesCount(node.size, e);
    forall t | 0 <= t < |r|
      ensures WellFormed(r[t].0) && r[t].0.empty == Some(Step(e, ms[t]))
      ensures MoveBlank(r[t].0.state, node.size, Step(e, ms[t]), Opposite(ms[t])) == node.state
    {
      MoveBlankBlank(node.state, node.size, e, ms[t]);
      MoveBack(node.state, node.size, e, ms[t]);
    }
  }
}
