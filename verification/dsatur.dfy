/**
 The static baseline colourer. Despite its name it does not use saturation
 degree: it visits the nodes once in non-increasing degree order (a stable
 sort of the graph's node order) and gives each the least colour none of its
 already coloured neighbours holds, then writes the result over every node's
 colour.

 The graph's own node order, which networkx fixes by insertion history, is a
 parameter `nodes`.
 */
module Dsatur {
  import opened Colors
  import opened Graphs

  ghost predicate InGraph(adj: Adjacency, s: seq<Node>) {
    forall i | 0 <= i < |s| :: s[i] in adj
  }

  /** Degrees never increase along s. */
  ghost predicate DegreeDescending(adj: Adjacency, s: seq<Node>)
    requires InGraph(adj, s)
  {
    forall i, j | 0 <= i < j < |s| :: |adj[s[i]]| >= |adj[s[j]]|
  }

  /**
   Stable insertion of x into a degree-descending sequence: x goes after every
   element whose degree is at least its own.
   */
  function InsertByDegree(adj: Adjacency, x: Node, t: seq<Node>): (r: seq<Node>)
    requires x in adj && InGraph(adj, t)
    ensures |r| == |t| + 1 && InGraph(adj, r)
    ensures multiset(r) == multiset(t) + multiset{x}
    decreases |t|
  {
    if t == [] then [x]
    else if |adj[t[0]]| >= |adj[x]| then
      assert t == [t[0]] + t[1..];
      [t[0]] + InsertByDegree(adj, x, t[1..])
    else
      [x] + t
  }

  /** Insertion introduces no degree above the bound d its inputs respect. */
  lemma {:induction false} InsertBounded(adj: Adjacency, x: Node, t: seq<Node>, d: nat)
    requires x in adj && InGraph(adj, t)
    requires |adj[x]| <= d && forall i | 0 <= i < |t| :: |adj[t[i]]| <= d
    ensures forall i | 0 <= i < |t| + 1 :: |adj[InsertByDegree(adj, x, t)[i]]| <= d
    decreases |t|
  {
    if t != [] && |adj[t[0]]| >= |adj[x]| {
      InsertBounded(adj, x, t[1..], d);
      var rest := InsertByDegree(adj, x, t[1..]);
      forall i | 0 < i < |t| + 1
        ensures |adj[([t[0]] + rest)[i]]| <= d
      {
        assert ([t[0]] + rest)[i] == rest[i - 1];
      }
    }
  }

  /** Insertion keeps a sequence degree-descending. */
  lemma {:induction false} InsertKeepsDescending(adj: Adjacency, x: Node, t: seq<Node>)
    requires x in adj && InGraph(adj, t)
    requires DegreeDescending(adj, t)
    ensures DegreeDescending(adj, InsertByDegree(adj, x, t))
    decreases |t|
  {
    if t != [] && |adj[t[0]]| >= |adj[x]| {
      var rest := InsertByDegree(adj, x, t[1..]);
      InsertKeepsDescending(adj, x, t[1..]);
      InsertBounded(adj, x, t[1..], |adj[t[0]]|);
      var r := [t[0]] + rest;
      forall i, j | 0 <= i < j < |r|
        ensures |adj[r[i]]| >= |adj[r[j]]|
      {
        assert r[j] == rest[j - 1];
        if i > 0 {
          assert r[i] == rest[i - 1];
        }
      }
    }
  }

  /** Two sequences with the same elements counted with multiplicity, one of them without repeats, have the other without repeats. */
  lemma {:induction false} DistinctByMultiset(s: seq<Node>, t: seq<Node>)
    requires multiset(s) == multiset(t) && Distinct(s)
    ensures Distinct(t)
  {
    forall i, j | 0 <= i < j < |t|
      ensures t[i] != t[j]
    {
      if t[i] == t[j] {
        var y := t[i];
        MultiplicityTwo(t, i, j);
        MultiplicityOne(s, y);
      }
    }
  }

  /** An element at two positions occurs at least twice. */
  lemma MultiplicityTwo(t: seq<Node>, i: nat, j: nat)
    requires i < j < |t| && t[i] == t[j]
    ensures multiset(t)[t[i]] >= 2
  {
    assert t == t[..i] + [t[i]] + t[i + 1..j] + [t[j]] + t[j + 1..];
  }

  /** In a sequence without repeats every element occurs at most once. */
  lemma {:induction false} MultiplicityOne(s: seq<Node>, y: Node)
    requires Distinct(s)
    ensures multiset(s)[y] <= 1
    decreases |s|
  {
    if s != [] {
      var init := s[..|s| - 1];
      assert s == init + [s[|s| - 1]];
      MultiplicityOne(init, y);
      if y == s[|s| - 1] {
        assert y !in init;
      }
    }
  }

  /** A stable sort of s by non-increasing degree. */
  function SortByDegree(adj: Adjacency, s: seq<Node>): (r: seq<Node>)
    requires InGraph(adj, s)
    ensures |r| == |s| && InGraph(adj, r)
    ensures multiset(r) == multiset(s)
    ensures DegreeDescending(adj, r)
    decreases |s|
  {
    if s == [] then []
    else
      var init := s[..|s| - 1];
      var x := s[|s| - 1];
      assert s == init + [x];
      InsertKeepsDescending(adj, x, SortByDegree(adj, init));
      InsertByDegree(adj, x, SortByDegree(adj, init))
  }

  /**
   The counting loop of the greedy pass: the least colour that none of x's
   neighbours already coloured in cm holds, so at most x's degree.
   */
  function FirstFree(adj: Adjacency, cm: Coloring, x: Node): (c: nat)
    requires x in adj
    ensures c <= |adj[x]|
    ensures forall v | v in adj[x] && v in cm :: cm[v] != c
    ensures forall k: nat | k < c :: k in Image(adj[x], cm)
  {
    Mex(UsedColors(ColoredGraph(adj, cm), x))
  }

  /**
   The greedy pass over order: each node in turn gets the least colour that
   none of its neighbours coloured so far holds.
   */
  function Greedy(adj: Adjacency, order: seq<Node>): (cm: Coloring)
    requires Simple(adj) && InGraph(adj, order)
    ensures forall y :: y in cm <==> y in order
    decreases |order|
  {
    if order == [] then map[]
    else
      var n := |order| - 1;
      var prev := Greedy(adj, order[..n]);
      var x := order[n];
      assert order == order[..n] + [x];
      prev[x := FirstFree(adj, prev, x)]
  }

  /** The greedy pass leaves a proper colouring, each colour at most its node's degree. */
  lemma {:induction false} GreedyProper(adj: Adjacency, order: seq<Node>)
    requires Simple(adj) && InGraph(adj, order)
    ensures Proper(ColoredGraph(adj, Greedy(adj, order)))
    ensures forall x | x in Greedy(adj, order) :: Greedy(adj, order)[x] <= |adj[x]|
    decreases |order|
  {
    if order != [] {
      var n := |order| - 1;
      var prev := Greedy(adj, order[..n]);
      var x := order[n];
      GreedyProper(adj, order[..n]);
      GreedyStep(adj, prev, x, FirstFree(adj, prev, x));
    }
  }

  /** Giving x a colour none of its coloured neighbours holds keeps a colouring proper. */
  lemma GreedyStep(adj: Adjacency, prev: Coloring, x: Node, c: nat)
    requires Simple(adj) && x in adj
    requires Proper(ColoredGraph(adj, prev))
    requires forall v | v in adj[x] && v in prev :: prev[v] != c
    ensures Proper(ColoredGraph(adj, prev[x := c]))
  {
    var G := ColoredGraph(adj, prev[x := c]);
    assert ProperAwayFrom(G, x);
    ProperFromAway(G, x);
  }

  /** dsatur_coloring: colour greedily in degree order, then overwrite every node's colour. */
  function DsaturColoring(G: ColoredGraph, nodes: seq<Node>): (r: ColoredGraph)
    requires Valid(G)
    requires Enumerates(nodes, G.adj.Keys)
    ensures r.adj == G.adj
    ensures Valid(r) && Total(r)
    ensures Proper(r)
    ensures forall x | x in r.color :: r.color[x] <= |r.adj[x]|
  {
    var cm := Greedy(G.adj, SortByDegree(G.adj, nodes));
    GreedyColorsAll(G.adj, nodes);
    GreedyProper(G.adj, SortByDegree(G.adj, nodes));
    ColoredGraph(G.adj, G.color + cm)
  }

  /** A reordering of an enumeration of the nodes visits every node. */
  lemma SameKeys(adj: Adjacency, nodes: seq<Node>, order: seq<Node>)
    requires Enumerates(nodes, adj.Keys) && multiset(order) == multiset(nodes)
    ensures forall y :: y in order <==> y in adj
  {
    forall y
      ensures y in order <==> y in nodes
    {
      assert y in order <==> y in multiset(order);
      assert y in nodes <==> y in multiset(nodes);
    }
  }

  /** The greedy pass over a reordering of all the nodes colours every node. */
  lemma GreedyColorsAll(adj: Adjacency, nodes: seq<Node>)
    requires Simple(adj) && Enumerates(nodes, adj.Keys)
    ensures Greedy(adj, SortByDegree(adj, nodes)).Keys == adj.Keys
  {
    var order := SortByDegree(adj, nodes);
    var cm := Greedy(adj, order);
    SameKeys(adj, nodes, order);
    forall y
      ensures y in cm.Keys <==> y in adj.Keys
    {
      assert y in cm <==> y in order;
    }
    assert cm.Keys == adj.Keys;
  }

  /** The colours present before the call play no part in the result. */
  lemma DsaturIgnoresOldColors(G: ColoredGraph, H: ColoredGraph, nodes: seq<Node>)
    requires Valid(G) && Valid(H) && G.adj == H.adj
    requires Enumerates(nodes, G.adj.Keys)
    ensures DsaturColoring(G, nodes) == DsaturColoring(H, nodes)
    ensures DsaturColoring(G, nodes).color == Greedy(G.adj, SortByDegree(G.adj, nodes))
  {
    var cm := Greedy(G.adj, SortByDegree(G.adj, nodes));
    GreedyColorsAll(G.adj, nodes);
    OverwriteAll(G.color, cm);
    OverwriteAll(H.color, cm);
  }

  /** Writing a colour to every coloured node forgets the old colours. */
  lemma OverwriteAll(prior: Coloring, cm: Coloring)
    requires prior.Keys <= cm.Keys
    ensures prior + cm == cm
  {
  }

  /**
   Step k of the greedy pass colours order[k-1] with its first free colour and
   keeps every colour given before.
   */
  lemma GreedyStepAt(adj: Adjacency, order: seq<Node>, k: nat)
    requires Simple(adj) && InGraph(adj, order) && 0 < k <= |order|
    ensures var prev := Greedy(adj, order[..k - 1]); var x := order[k - 1];
      Greedy(adj, order[..k]) == prev[x := FirstFree(adj, prev, x)]
  {
    assert order[..k][..k - 1] == order[..k - 1];
  }

  /** Step k of the greedy pass keeps the colour of every node other than order[k-1]. */
  lemma GreedyStepKeeps(adj: Adjacency, order: seq<Node>, k: nat, y: Node)
    requires Simple(adj) && InGraph(adj, order) && 0 < k <= |order|
    requires y in Greedy(adj, order[..k - 1]) && y != order[k - 1]
    ensures y in Greedy(adj, order[..k])
    ensures Greedy(adj, order[..k])[y] == Greedy(adj, order[..k - 1])[y]
  {
    GreedyStepAt(adj, order, k);
  }

  /** Steps j+2 .. k of the greedy pass never touch order[j], coloured at step j+1. */
  lemma {:induction false} GreedyKeepsEarlier(adj: Adjacency, order: seq<Node>, j: nat, k: nat)
    requires Simple(adj) && InGraph(adj, order)
    requires j < k <= |order|
    requires forall i | j < i < k :: order[i] != order[j]
    ensures order[j] in Greedy(adj, order[..k])
    ensures Greedy(adj, order[..k])[order[j]] == Greedy(adj, order[..j + 1])[order[j]]
    decreases k
  {
    if j + 1 < k {
      GreedyKeepsEarlier(adj, order, j, k - 1);
      GreedyStepKeeps(adj, order, k, order[j]);
    } else {
      assert order[..k][j] == order[j];
    }
  }

  /** The final colouring agrees with every prefix's on that prefix's nodes. */
  lemma GreedyPrefix(adj: Adjacency, order: seq<Node>, n: nat)
    requires Simple(adj) && InGraph(adj, order) && Distinct(order)
    requires n <= |order|
    ensures forall j | 0 <= j < n :: Greedy(adj, order)[order[j]] == Greedy(adj, order[..n])[order[j]]
  {
    forall j | 0 <= j < n
      ensures Greedy(adj, order)[order[j]] == Greedy(adj, order[..n])[order[j]]
    {
      GreedyKeepsEarlier(adj, order, j, |order|);
      GreedyKeepsEarlier(adj, order, j, n);
      assert order[..|order|] == order;
    }
  }

  /** The neighbours of order[i] visited before it. */
  function EarlierNeighbours(adj: Adjacency, order: seq<Node>, i: nat): (E: set<Node>)
    requires InGraph(adj, order) && i < |order|
    ensures E <= adj[order[i]]
    ensures forall y :: y in E <==> y in adj[order[i]] && y in order[..i]
  {
    set y | y in adj[order[i]] && y in order[..i]
  }

  /** Each earlier neighbour of order[i] ends with the colour it had when order[i] was coloured. */
  lemma EarlierNeighboursKept(adj: Adjacency, order: seq<Node>, i: nat)
    requires Simple(adj) && InGraph(adj, order) && Distinct(order)
    requires i < |order|
    ensures var cm := Greedy(adj, order); var prev := Greedy(adj, order[..i]);
      forall y | y in EarlierNeighbours(adj, order, i) :: y in prev && y in cm && cm[y] == prev[y]
  {
    var cm := Greedy(adj, order);
    var prev := Greedy(adj, order[..i]);
    GreedyPrefix(adj, order, i);
    forall y | y in EarlierNeighbours(adj, order, i)
      ensures y in prev && y in cm && cm[y] == prev[y]
    {
      var j :| 0 <= j < i && order[..i][j] == y;
      GreedyKeepsEarlier(adj, order, j, i);
    }
  }

  /** order[i] is coloured by its first free colour among the nodes visited before it. */
  lemma ColourOfVisited(adj: Adjacency, order: seq<Node>, i: nat)
    requires Simple(adj) && InGraph(adj, order) && Distinct(order)
    requires i < |order|
    ensures var prev := Greedy(adj, order[..i]);
      Greedy(adj, order)[order[i]] == FirstFree(adj, prev, order[i])
  {
    GreedyPrefix(adj, order, i + 1);
    GreedyStepAt(adj, order, i + 1);
  }

  /** The colours u's coloured neighbours hold, read through another map that agrees on them. */
  lemma UsedColorsThrough(G: ColoredGraph, x: Node, E: set<Node>, cm: Coloring)
    requires x in G.adj
    requires forall y :: y in E <==> y in G.adj[x] && y in G.color
    requires forall y | y in E :: y in cm && cm[y] == G.color[y]
    ensures UsedColors(G, x) == Image(E, cm)
  {
    forall c | c in UsedColors(G, x)
      ensures c in Image(E, cm)
    {
      var v :| v in G.adj[x] && v in G.color && G.color[v] == c;
      assert v in E;
    }
  }

  /**
   First fit: the colour of order[i] is the least colour that none of its
   earlier-visited neighbours holds, so it is at most their number.
   */
  lemma FirstFit(adj: Adjacency, order: seq<Node>, i: nat)
    requires Simple(adj) && InGraph(adj, order) && Distinct(order)
    requires i < |order|
    ensures var cm := Greedy(adj, order); var E := EarlierNeighbours(adj, order, i);
      && cm[order[i]] !in Image(E, cm)
      && (forall k: nat | k < cm[order[i]] :: k in Image(E, cm))
      && cm[order[i]] <= |E| <= |adj[order[i]]|
  {
    var cm := Greedy(adj, order);
    var x := order[i];
    var E := EarlierNeighbours(adj, order, i);
    var prev := Greedy(adj, order[..i]);
    ColourOfVisited(adj, order, i);
    EarlierNeighboursKept(adj, order, i);
    UsedColorsThrough(ColoredGraph(adj, prev), x, E, cm);
    ImageSize(E, cm);
    SubsetSize(E, adj[x]);
  }

  /**
   In dsatur_coloring's result, the i-th node of the degree order holds the
   least colour that none of its neighbours earlier in that order holds.
   */
  lemma DsaturFirstFit(G: ColoredGraph, nodes: seq<Node>, i: nat)
    requires Valid(G)
    requires Enumerates(nodes, G.adj.Keys)
    requires i < |nodes|
    ensures var order := SortByDegree(G.adj, nodes);
      var r := DsaturColoring(G, nodes).color;
      var E := EarlierNeighbours(G.adj, order, i);
      && r[order[i]] !in Image(E, r)
      && (forall k: nat | k < r[order[i]] :: k in Image(E, r))
      && r[order[i]] <= |E| <= |G.adj[order[i]]|
  {
    var order := SortByDegree(G.adj, nodes);
    DsaturIgnoresOldColors(G, G, nodes);
    DistinctByMultiset(nodes, order);
    FirstFit(G.adj, order, i);
  }
}
