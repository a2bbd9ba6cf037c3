/**
 The graph store the colouring engine works on: a finite, simple, undirected
 graph kept as a symmetric adjacency map, together with the optional colour
 each node carries. A node without an entry in the colour map is uncoloured.
 */
module Graphs {
  import opened Colors

  type Node = int

  /** Each node's set of neighbours. */
  type Adjacency = map<Node, set<Node>>

  /** The colour attribute of the coloured nodes. */
  type Coloring = map<Node, nat>

  datatype ColoredGraph = ColoredGraph(adj: Adjacency, color: Coloring)

  /** Neighbours are nodes, there are no self-loops, and adjacency is symmetric. */
  ghost predicate Simple(adj: Adjacency) {
    forall u | u in adj ::
      && adj[u] <= adj.Keys
      && u !in adj[u]
      && forall v | v in adj[u] :: u in adj[v]
  }

  /** A simple graph whose colours sit on its own nodes. */
  ghost predicate Valid(G: ColoredGraph) {
    Simple(G.adj) && G.color.Keys <= G.adj.Keys
  }

  /** Every node is coloured. */
  ghost predicate Total(G: ColoredGraph) {
    G.color.Keys == G.adj.Keys
  }

  predicate HasEdge(adj: Adjacency, x: Node, y: Node) {
    x in adj && y in adj[x]
  }

  /** No edge joins two coloured nodes of the same colour. */
  ghost predicate Proper(G: ColoredGraph) {
    forall x, y | HasEdge(G.adj, x, y) && x in G.color && y in G.color :: G.color[x] != G.color[y]
  }

  /** Every edge that does not touch u is properly coloured. */
  ghost predicate ProperAwayFrom(G: ColoredGraph, u: Node) {
    forall x, y | HasEdge(G.adj, x, y) && x != u && y != u && x in G.color && y in G.color ::
      G.color[x] != G.color[y]
  }

  /** Recolouring u alone cannot spoil an edge that does not touch u. */
  lemma AwayFromIgnoresCenter(G: ColoredGraph, u: Node, c: nat)
    requires ProperAwayFrom(G, u)
    ensures ProperAwayFrom(ColoredGraph(G.adj, G.color[u := c]), u)
  {
  }

  /** Properness away from u plus u differing from its neighbours is properness. */
  lemma ProperFromAway(G: ColoredGraph, u: Node)
    requires Simple(G.adj) && u in G.adj && u in G.color
    requires ProperAwayFrom(G, u)
    requires forall v | v in G.adj[u] && v in G.color :: G.color[v] != G.color[u]
    ensures Proper(G)
  {
    forall x, y | HasEdge(G.adj, x, y) && x in G.color && y in G.color
      ensures G.color[x] != G.color[y]
    {
      if y == u {
        assert x in G.adj[u];
      }
    }
  }

  /** No node occurs twice in s. */
  ghost predicate Distinct(s: seq<Node>) {
    forall i, j | 0 <= i < j < |s| :: s[i] != s[j]
  }

  /** order visits exactly the members of s, each once. */
  ghost predicate Enumerates(order: seq<Node>, s: set<Node>) {
    && (forall i | 0 <= i < |order| :: order[i] in s)
    && (forall x | x in s :: x in order)
    && Distinct(order)
  }

  /** The colours a map gives to the members of S that it colours. */
  function Image(S: set<Node>, col: Coloring): (r: set<nat>)
    ensures forall x | x in S && x in col :: col[x] in r
    ensures forall c | c in r :: exists x :: x in S && x in col && col[x] == c
  {
    set x | x in S && x in col :: col[x]
  }

  /** Pigeonhole: a map produces at most as many colours as it is given keys. */
  lemma {:induction false} ImageSize(S: set<Node>, col: Coloring)
    ensures |Image(S, col)| <= |S|
    decreases |S|
  {
    if S != {} {
      var x := Pick(S);
      ImageSize(S - {x}, col);
      var rest := Image(S - {x}, col);
      if x in col {
        assert Image(S, col) <= rest + {col[x]};
        SubsetSize(Image(S, col), rest + {col[x]});
      } else {
        assert Image(S, col) <= rest;
        SubsetSize(Image(S, col), rest);
      }
    } else {
      assert Image(S, col) == {};
    }
  }

  /** The colours held by the coloured neighbours of u. */
  function UsedColors(G: ColoredGraph, u: Node): (r: set<nat>)
    requires u in G.adj
    ensures forall v | v in G.adj[u] && v in G.color :: G.color[v] in r
    ensures forall c | c in r :: exists v :: v in G.adj[u] && v in G.color && G.color[v] == c
    ensures |r| <= |G.adj[u]|
  {
    ImageSize(G.adj[u], G.color);
    Image(G.adj[u], G.color)
  }

  /** networkx add_edge between two existing nodes. */
  function AddEdge(adj: Adjacency, u: Node, v: Node): (r: Adjacency)
    requires u in adj && v in adj && u != v
    requires Simple(adj)
    ensures Simple(r) && r.Keys == adj.Keys
    ensures forall x, y :: HasEdge(r, x, y) <==> HasEdge(adj, x, y) || (x == u && y == v) || (x == v && y == u)
  {
    adj[u := adj[u] + {v}][v := adj[v] + {u}]
  }

  /** networkx remove_edge. */
  function RemoveEdge(adj: Adjacency, u: Node, v: Node): (r: Adjacency)
    requires u in adj && v in adj
    requires Simple(adj)
    ensures Simple(r) && r.Keys == adj.Keys
    ensures forall x, y :: HasEdge(r, x, y) <==> HasEdge(adj, x, y) && !(x == u && y == v) && !(x == v && y == u)
  {
    adj[u := adj[u] - {v}][v := adj[v] - {u}]
  }

  /** Adding an absent edge and removing it again gives back the original graph. */
  lemma AddThenRemove(adj: Adjacency, u: Node, v: Node)
    requires Simple(adj) && u in adj && v in adj && u != v
    requires !HasEdge(adj, u, v)
    ensures RemoveEdge(AddEdge(adj, u, v), u, v) == adj
  {
    var r := RemoveEdge(AddEdge(adj, u, v), u, v);
    forall x | x in adj
      ensures r[x] == adj[x]
    {
      forall y
        ensures y in r[x] <==> y in adj[x]
      {
        assert HasEdge(r, x, y) <==> HasEdge(adj, x, y);
      }
    }
  }

  /** Removing a present edge and adding it again gives back the original graph. */
  lemma RemoveThenAdd(adj: Adjacency, u: Node, v: Node)
    requires Simple(adj) && HasEdge(adj, u, v)
    ensures u != v && v in adj
    ensures AddEdge(RemoveEdge(adj, u, v), u, v) == adj
  {
    var r := AddEdge(RemoveEdge(adj, u, v), u, v);
    forall x | x in adj
      ensures r[x] == adj[x]
    {
      forall y
        ensures y in r[x] <==> y in adj[x]
      {
        assert HasEdge(r, x, y) <==> HasEdge(adj, x, y);
      }
    }
  }
}
