/**
 The incremental colouring engine: the greedy smallest-free-colour query, the
 bounded local repair of one node (with its single-level eviction cascade), and
 the edge insertion and deletion operations that call the repair.

 Two choices the implementation leaves to Python's iteration order are
 parameters here: `cand`, the colour picked among those of least contention
 (any minimiser is allowed), and `order`, the sequence in which the neighbours
 of the repaired node are visited by the eviction loop.
 */
module Algo {
  import opened Colors
  import opened Graphs

  /**
   smallest_unassigned_color: the least colour in [0, deg(u)] that no coloured
   neighbour of u holds. Such a colour always exists, since u's at most deg(u)
   neighbours cannot cover deg(u)+1 candidates.
   */
  function SmallestUnassignedColor(G: ColoredGraph, u: Node): (c: nat)
    requires u in G.adj
    ensures c <= |G.adj[u]|
    ensures forall v | v in G.adj[u] && v in G.color :: G.color[v] != c
    ensures forall k: nat | k < c :: k in UsedColors(G, u)
  {
    Mex(UsedColors(G, u))
  }

  /** The colour set C of the repair: the neighbours' colours and u's own. */
  function LocalColors(G: ColoredGraph, u: Node): (C: set<nat>)
    requires u in G.adj && u in G.color
    ensures C != {} && G.color[u] in C
    ensures forall v | v in G.adj[u] && v in G.color :: G.color[v] in C
    ensures forall c | c in C :: c == G.color[u] || c in UsedColors(G, u)
  {
    UsedColors(G, u) + {G.color[u]}
  }

  /**
   C is the set of colours on u's closed neighbourhood, so it has at most
   deg(u) + 1 members.
   */
  lemma LocalColorsClosed(G: ColoredGraph, u: Node)
    requires u in G.adj && u in G.color
    ensures LocalColors(G, u) == Image(G.adj[u] + {u}, G.color)
    ensures |LocalColors(G, u)| <= |G.adj[u]| + 1
  {
    ImageSize(G.adj[u] + {u}, G.color);
    assert LocalColors(G, u) == Image(G.adj[u] + {u}, G.color);
  }

  /**
   The gap colour c_min: the least colour of [0, max C] missing from C, or
   max C + 1 when C holds all of them. It is never max C itself.
   */
  function GapColor(C: set<nat>): (cMin: nat)
    requires C != {}
    ensures cMin !in C
    ensures forall k: nat | k < cMin :: k in C
    ensures cMin <= SetMax(C) + 1 && cMin != SetMax(C)
    ensures cMin == SetMax(C) + 1 <==> forall k: nat | k <= SetMax(C) :: k in C
  {
    var cMin := Mex(C);
    assert SetMax(C) + 1 !in C;
    cMin
  }

  /** The neighbours of u that hold colour c. */
  function Holders(G: ColoredGraph, u: Node, c: nat): (H: set<Node>)
    requires u in G.adj
    ensures forall v :: v in H <==> v in G.adj[u] && v in G.color && G.color[v] == c
  {
    set v | v in G.adj[u] && v in G.color && G.color[v] == c
  }

  /**
   The contention score of colour c around u: the largest degree of a
   neighbour of u holding c, or 0 when no neighbour holds it.
   */
  function Score(G: ColoredGraph, u: Node, c: nat): (s: nat)
    requires Valid(G) && u in G.adj
    ensures forall v | v in Holders(G, u, c) :: |G.adj[v]| <= s
    ensures s == 0 || exists v :: v in Holders(G, u, c) && |G.adj[v]| == s
  {
    var degrees := set v | v in Holders(G, u, c) :: |G.adj[v]|;
    assert forall v | v in Holders(G, u, c) :: |G.adj[v]| in degrees;
    SetMax({0} + degrees)
  }

  /** c is a colour of C whose contention score is least: a possible c_cand. */
  ghost predicate IsMinimiser(G: ColoredGraph, u: Node, c: nat)
    requires Valid(G) && u in G.adj && u in G.color
  {
    && c in LocalColors(G, u)
    && forall c' | c' in LocalColors(G, u) :: Score(G, u, c) <= Score(G, u, c')
  }

  /** The least-valued minimiser: one deterministic resolution of the tie-break. */
  function LeastMinimiser(G: ColoredGraph, u: Node): (c: nat)
    requires Valid(G) && u in G.adj && u in G.color
    ensures IsMinimiser(G, u, c)
    ensures forall c' | IsMinimiser(G, u, c') :: c <= c'
  {
    var C := LocalColors(G, u);
    var scores := set c | c in C :: Score(G, u, c);
    assert Score(G, u, G.color[u]) in scores;
    var best := SetMin(scores);
    var winners := set c | c in C && Score(G, u, c) == best;
    assert winners != {} by {
      var c :| c in C && Score(G, u, c) == best;
      assert c in winners;
    }
    var c := SetMin(winners);
    LeastMinimiserFacts(G, u, scores, best, winners, c);
    c
  }

  lemma LeastMinimiserFacts(G: ColoredGraph, u: Node, scores: set<nat>, best: nat, winners: set<nat>, c: nat)
    requires Valid(G) && u in G.adj && u in G.color
    requires scores == set c | c in LocalColors(G, u) :: Score(G, u, c)
    requires best in scores && forall s | s in scores :: best <= s
    requires winners == set c | c in LocalColors(G, u) && Score(G, u, c) == best
    requires c in winners && forall c' | c' in winners :: c <= c'
    ensures IsMinimiser(G, u, c)
    ensures forall c' | IsMinimiser(G, u, c') :: c <= c'
  {
    var C := LocalColors(G, u);
    forall c' | c' in C
      ensures best <= Score(G, u, c')
    {
      assert Score(G, u, c') in scores;
    }
    forall c' | IsMinimiser(G, u, c')
      ensures c <= c'
    {
      var w :| w in C && Score(G, u, w) == best;
      assert Score(G, u, c') <= Score(G, u, w);
      assert c' in winners;
    }
  }

  /**
   The eviction loop of the repair, entered after u has taken the candidate
   colour: each visited neighbour still holding u's colour is given its
   smallest unassigned colour, once.
   */
  function Evict(G: ColoredGraph, u: Node, order: seq<Node>): (r: Coloring)
    requires Valid(G) && Total(G) && u in G.adj
    requires forall i | 0 <= i < |order| :: order[i] in G.adj[u]
    ensures r.Keys == G.color.Keys
    decreases |order|
  {
    if order == [] then G.color
    else
      var v := order[0];
      var col := if G.color[v] == G.color[u] then G.color[v := SmallestUnassignedColor(G, v)] else G.color;
      Evict(ColoredGraph(G.adj, col), u, order[1..])
  }

  /**
   The eviction loop leaves u alone, moves every visited neighbour off u's
   colour, moves only visited neighbours that held u's colour (each to a colour
   at most its degree), and spoils no edge away from u.
   */
  lemma EvictFacts(G: ColoredGraph, u: Node, order: seq<Node>)
    requires Valid(G) && Total(G) && u in G.adj
    requires forall i | 0 <= i < |order| :: order[i] in G.adj[u]
    ensures var r := Evict(G, u, order);
      && r[u] == G.color[u]
      && (forall i | 0 <= i < |order| :: r[order[i]] != G.color[u])
      && (forall w | w in G.color && r[w] != G.color[w] ::
            w in order && G.color[w] == G.color[u] && r[w] <= |G.adj[w]|)
      && (ProperAwayFrom(G, u) ==> ProperAwayFrom(ColoredGraph(G.adj, r), u))
  {
    EvictVisited(G, u, order);
    EvictFrame(G, u, order);
    if ProperAwayFrom(G, u) {
      EvictKeepsProper(G, u, order);
    }
  }

  /** The eviction loop moves only visited neighbours that held u's colour, each to at most its degree. */
  lemma {:induction false} EvictFrame(G: ColoredGraph, u: Node, order: seq<Node>)
    requires Valid(G) && Total(G) && u in G.adj
    requires forall i | 0 <= i < |order| :: order[i] in G.adj[u]
    ensures var r := Evict(G, u, order);
      forall w | w in G.color && r[w] != G.color[w] ::
        w in order && G.color[w] == G.color[u] && r[w] <= |G.adj[w]|
    decreases |order|
  {
    if order != [] {
      var v := order[0];
      var col := if G.color[v] == G.color[u] then G.color[v := SmallestUnassignedColor(G, v)] else G.color;
      EvictOne(G, u, v);
      var r := Evict(ColoredGraph(G.adj, col), u, order[1..]);
      EvictFrame(ColoredGraph(G.adj, col), u, order[1..]);
      forall w | w in G.color && r[w] != G.color[w]
        ensures w in order && G.color[w] == G.color[u] && r[w] <= |G.adj[w]|
      {
        if col[w] == G.color[w] {
          var i :| 0 <= i < |order[1..]| && order[1..][i] == w;
          assert order[i + 1] == w;
        }
      }
    }
  }

  /** The eviction loop leaves u alone and moves every visited neighbour off u's colour. */
  lemma {:induction false} EvictVisited(G: ColoredGraph, u: Node, order: seq<Node>)
    requires Valid(G) && Total(G) && u in G.adj
    requires forall i | 0 <= i < |order| :: order[i] in G.adj[u]
    ensures var r := Evict(G, u, order);
      && r[u] == G.color[u]
      && forall i | 0 <= i < |order| :: r[order[i]] != G.color[u]
    decreases |order|
  {
    if order != [] {
      var v := order[0];
      var col := if G.color[v] == G.color[u] then G.color[v := SmallestUnassignedColor(G, v)] else G.color;
      EvictOne(G, u, v);
      var r := Evict(ColoredGraph(G.adj, col), u, order[1..]);
      EvictVisited(ColoredGraph(G.adj, col), u, order[1..]);
      EvictFrame(ColoredGraph(G.adj, col), u, order[1..]);
      // Later steps leave v alone: it no longer holds u's colour.
      assert r[v] == col[v];
      forall i | 0 <= i < |order|
        ensures r[order[i]] != G.color[u]
      {
        if i > 0 {
          assert order[i] == order[1..][i - 1];
        }
      }
    }
  }

  /** The eviction loop spoils no edge away from u. */
  lemma {:induction false} EvictKeepsProper(G: ColoredGraph, u: Node, order: seq<Node>)
    requires Valid(G) && Total(G) && u in G.adj
    requires forall i | 0 <= i < |order| :: order[i] in G.adj[u]
    requires ProperAwayFrom(G, u)
    ensures ProperAwayFrom(ColoredGraph(G.adj, Evict(G, u, order)), u)
    decreases |order|
  {
    if order != [] {
      var v := order[0];
      var col := if G.color[v] == G.color[u] then G.color[v := SmallestUnassignedColor(G, v)] else G.color;
      EvictOne(G, u, v);
      EvictKeepsProper(ColoredGraph(G.adj, col), u, order[1..]);
    }
  }

  /** One step of the eviction loop: the visited neighbour v leaves u's colour if it held it. */
  lemma EvictOne(G: ColoredGraph, u: Node, v: Node)
    requires Valid(G) && Total(G) && u in G.adj && v in G.adj[u]
    ensures var col := if G.color[v] == G.color[u] then G.color[v := SmallestUnassignedColor(G, v)] else G.color;
      && col.Keys == G.color.Keys
      && col[u] == G.color[u]
      && col[v] != G.color[u]
      && (forall w | w in G.color && col[w] != G.color[w] ::
            w == v && G.color[w] == G.color[u] && col[w] <= |G.adj[w]|)
      && (ProperAwayFrom(G, u) ==> ProperAwayFrom(ColoredGraph(G.adj, col), u))
  {
    assert v != u && v in G.adj && u in G.adj[v];
  }

  /**
   dc_local_recolor: move u to an internal gap of its closed neighbourhood's
   colours if there is one; otherwise take the least contended colour c_cand
   and evict the neighbours holding it, unless c_cand is max C, in which case
   u takes the fresh colour max C + 1.
   */
  function LocalRecolor(G: ColoredGraph, u: Node, cand: nat, order: seq<Node>): (r: Coloring)
    requires Valid(G) && Total(G) && u in G.adj
    requires IsMinimiser(G, u, cand)
    requires Enumerates(order, G.adj[u])
    ensures r.Keys == G.color.Keys
    ensures forall v | v in G.adj[u] :: r[v] != r[u]
    ensures r[u] <= SetMax(LocalColors(G, u)) + 1 && r[u] != SetMax(LocalColors(G, u))
    ensures forall w | w in G.color && w != u && r[w] != G.color[w] ::
      w in G.adj[u] && G.color[w] == r[u] && r[w] <= |G.adj[w]|
    ensures ProperAwayFrom(G, u) ==> Proper(ColoredGraph(G.adj, r))
  {
    var C := LocalColors(G, u);
    var cMax := SetMax(C);
    var cMin := GapColor(C);
    if cMin < cMax then
      MoveToFreeColor(G, u, cMin);
      G.color[u := cMin]
    else if cand < cMin - 1 then
      EvictionBranch(G, u, cand, order);
      Evict(ColoredGraph(G.adj, G.color[u := cand]), u, order)
    else
      MoveToFreeColor(G, u, cMin);
      G.color[u := cMin]
  }

  /** The gap and fallback branches give u a colour no neighbour holds and change nothing else. */
  lemma MoveToFreeColor(G: ColoredGraph, u: Node, c: nat)
    requires Valid(G) && Total(G) && u in G.adj
    requires c !in LocalColors(G, u) && c <= SetMax(LocalColors(G, u)) + 1
    ensures var r := G.color[u := c];
      && r.Keys == G.color.Keys
      && (forall v | v in G.adj[u] :: r[v] != r[u])
      && r[u] <= SetMax(LocalColors(G, u)) + 1 && r[u] != SetMax(LocalColors(G, u))
      && (forall w | w in G.color && w != u :: r[w] == G.color[w])
      && (ProperAwayFrom(G, u) ==> Proper(ColoredGraph(G.adj, r)))
  {
    var r := G.color[u := c];
    forall v | v in G.adj[u]
      ensures r[v] != r[u]
    {
      assert G.color[v] in LocalColors(G, u);
    }
    if ProperAwayFrom(G, u) {
      AwayFromIgnoresCenter(G, u, c);
      ProperFromAway(ColoredGraph(G.adj, r), u);
    }
  }

  /**
   In the eviction branch u keeps c_cand, every neighbour ends on another
   colour, and only neighbours that held c_cand are moved.
   */
  lemma EvictionBranch(G: ColoredGraph, u: Node, cand: nat, order: seq<Node>)
    requires Valid(G) && Total(G) && u in G.adj
    requires Enumerates(order, G.adj[u])
    ensures var r := Evict(ColoredGraph(G.adj, G.color[u := cand]), u, order);
      && r.Keys == G.color.Keys
      && r[u] == cand
      && (forall v | v in G.adj[u] :: r[v] != r[u])
      && (forall w | w in G.color && w != u && r[w] != G.color[w] ::
            w in G.adj[u] && G.color[w] == r[u] && r[w] <= |G.adj[w]|)
      && (ProperAwayFrom(G, u) ==> Proper(ColoredGraph(G.adj, r)))
  {
    var G1 := ColoredGraph(G.adj, G.color[u := cand]);
    var r := Evict(G1, u, order);
    EvictFacts(G1, u, order);
    forall v | v in G.adj[u]
      ensures r[v] != r[u]
    {
      var i :| 0 <= i < |order| && order[i] == v;
      assert r[order[i]] != G1.color[u];
    }
    if ProperAwayFrom(G, u) {
      AwayFromIgnoresCenter(G, u, cand);
      ProperFromAway(ColoredGraph(G.adj, r), u);
    }
  }

  /** C misses some colour below its maximum: the repair's first test, c_min < c_max, succeeds. */
  ghost predicate HasGap(G: ColoredGraph, u: Node)
    requires u in G.adj && u in G.color
  {
    exists k: nat :: k < SetMax(LocalColors(G, u)) && k !in LocalColors(G, u)
  }

  /**
   When C has an internal gap, the repair moves u to the least colour missing
   from C, which lies below max C, and touches nothing else.
   */
  lemma RecolorFillsGap(G: ColoredGraph, u: Node, cand: nat, order: seq<Node>)
    requires Valid(G) && Total(G) && u in G.adj
    requires IsMinimiser(G, u, cand) && Enumerates(order, G.adj[u])
    ensures HasGap(G, u) ==>
      && GapColor(LocalColors(G, u)) < SetMax(LocalColors(G, u))
      && LocalRecolor(G, u, cand, order) == G.color[u := GapColor(LocalColors(G, u))]
  {
    if HasGap(G, u) {
      var C := LocalColors(G, u);
      var k: nat :| k < SetMax(C) && k !in C;
      assert GapColor(C) <= k;
      RecolorTakesGapBranch(G, u, cand, order);
    }
  }

  /** The repair's gap branch is taken when c_min is below max C. */
  lemma RecolorTakesGapBranch(G: ColoredGraph, u: Node, cand: nat, order: seq<Node>)
    requires Valid(G) && Total(G) && u in G.adj
    requires IsMinimiser(G, u, cand) && Enumerates(order, G.adj[u])
    requires GapColor(LocalColors(G, u)) < SetMax(LocalColors(G, u))
    ensures LocalRecolor(G, u, cand, order) == G.color[u := GapColor(LocalColors(G, u))]
  {
    var r := LocalRecolor(G, u, cand, order);
    var m := G.color[u := GapColor(LocalColors(G, u))];
    assert r.Keys == m.Keys;
    assert forall w | w in r :: r[w] == m[w];
  }

  /**
   When C covers [0, max C], the gap colour is max C + 1, and the eviction
   test c_cand < c_min - 1 holds exactly when c_cand is not max C.
   */
  lemma DenseNeighbourhood(G: ColoredGraph, u: Node, cand: nat)
    requires Valid(G) && Total(G) && u in G.adj
    requires IsMinimiser(G, u, cand)
    requires !HasGap(G, u)
    ensures GapColor(LocalColors(G, u)) == SetMax(LocalColors(G, u)) + 1
    ensures cand < GapColor(LocalColors(G, u)) - 1 <==> cand != SetMax(LocalColors(G, u))
  {
    NoGapSet(LocalColors(G, u));
  }

  /** A colour set with no gap below its maximum has max C + 1 as its gap colour. */
  lemma NoGapSet(C: set<nat>)
    requires C != {}
    requires !exists k: nat :: k < SetMax(C) && k !in C
    ensures GapColor(C) == SetMax(C) + 1
  {
    forall k: nat | k <= SetMax(C)
      ensures k in C
    {
      if k < SetMax(C) {
        assert !(k < SetMax(C) && k !in C);
      }
    }
  }

  /** The repair's eviction branch is taken when c_min is not below max C and c_cand is below c_min - 1. */
  lemma RecolorTakesEvictionBranch(G: ColoredGraph, u: Node, cand: nat, order: seq<Node>)
    requires Valid(G) && Total(G) && u in G.adj
    requires IsMinimiser(G, u, cand) && Enumerates(order, G.adj[u])
    requires GapColor(LocalColors(G, u)) >= SetMax(LocalColors(G, u))
    requires cand < GapColor(LocalColors(G, u)) - 1
    ensures LocalRecolor(G, u, cand, order) == Evict(ColoredGraph(G.adj, G.color[u := cand]), u, order)
  {
  }

  /** Without a gap and with c_cand below max C, u takes c_cand and its other holders are evicted. */
  lemma RecolorEvicts(G: ColoredGraph, u: Node, cand: nat, order: seq<Node>)
    requires Valid(G) && Total(G) && u in G.adj
    requires IsMinimiser(G, u, cand) && Enumerates(order, G.adj[u])
    ensures !HasGap(G, u) && cand != SetMax(LocalColors(G, u)) ==>
      var r := LocalRecolor(G, u, cand, order);
      && r[u] == cand
      && forall v | v in G.adj[u] && G.color[v] == cand :: r[v] != cand && r[v] <= |G.adj[v]|
  {
    if !HasGap(G, u) && cand != SetMax(LocalColors(G, u)) {
      DenseNeighbourhood(G, u, cand);
      RecolorTakesEvictionBranch(G, u, cand, order);
      EvictionBranch(G, u, cand, order);
      var r := Evict(ColoredGraph(G.adj, G.color[u := cand]), u, order);
      forall v | v in G.adj[u] && G.color[v] == cand
        ensures r[v] != cand && r[v] <= |G.adj[v]|
      {
        assert v != u && r[v] != r[u];
      }
    }
  }

  /** Without a gap and with c_cand equal to max C, u takes the new colour max C + 1 alone. */
  lemma RecolorFallsBack(G: ColoredGraph, u: Node, cand: nat, order: seq<Node>)
    requires Valid(G) && Total(G) && u in G.adj
    requires IsMinimiser(G, u, cand) && Enumerates(order, G.adj[u])
    ensures !HasGap(G, u) && cand == SetMax(LocalColors(G, u)) ==>
      var r := LocalRecolor(G, u, cand, order);
      && r[u] == SetMax(LocalColors(G, u)) + 1
      && forall w | w in G.color && w != u :: r[w] == G.color[w]
  {
    if !HasGap(G, u) && cand == SetMax(LocalColors(G, u)) {
      DenseNeighbourhood(G, u, cand);
    }
  }

  /** The endpoint dc_local_insert repairs: the one with fewer neighbours, u on a tie. */
  function InsertTarget(adj: Adjacency, u: Node, v: Node): (t: Node)
    requires u in adj && v in adj
    ensures t == u || t == v
    ensures |adj[t]| <= |adj[u]| && |adj[t]| <= |adj[v]|
    ensures t == v && u != v ==> |adj[v]| < |adj[u]|
  {
    if |adj[u]| <= |adj[v]| then u else v
  }

  /** The tie-break and eviction order dc_local_insert may use. */
  ghost predicate InsertChoice(G: ColoredGraph, u: Node, v: Node, cand: nat, order: seq<Node>)
    requires Valid(G) && Total(G) && u in G.adj && v in G.adj && u != v
  {
    var a := AddEdge(G.adj, u, v);
    var t := InsertTarget(a, u, v);
    G.color[u] == G.color[v] ==>
      IsMinimiser(ColoredGraph(a, G.color), t, cand) && Enumerates(order, a[t])
  }

  /**
   dc_local_insert: add the edge {u, v}; if its endpoints share a colour,
   repair the endpoint with fewer neighbours.
   */
  function LocalInsert(G: ColoredGraph, u: Node, v: Node, cand: nat, order: seq<Node>): (r: ColoredGraph)
    requires Valid(G) && Total(G) && u in G.adj && v in G.adj && u != v
    requires InsertChoice(G, u, v, cand, order)
    ensures Valid(r) && Total(r) && r.adj.Keys == G.adj.Keys
    ensures forall x, y :: HasEdge(r.adj, x, y) <==> HasEdge(G.adj, x, y) || (x == u && y == v) || (x == v && y == u)
    ensures G.color[u] != G.color[v] ==> r.color == G.color
    ensures r.color[u] != r.color[v]
    ensures |r.adj[u]| <= |r.adj[v]| ==>
      forall w | w in G.color && r.color[w] != G.color[w] :: w == u || w in r.adj[u]
    ensures |r.adj[u]| > |r.adj[v]| ==>
      forall w | w in G.color && r.color[w] != G.color[w] :: w == v || w in r.adj[v]
    ensures Proper(G) ==> Proper(r)
  {
    var a := AddEdge(G.adj, u, v);
    if G.color[u] == G.color[v] then
      var t := InsertTarget(a, u, v);
      var G1 := ColoredGraph(a, G.color);
      assert Proper(G) ==> ProperAwayFrom(G1, t);
      assert v in a[u] && u in a[v];
      ColoredGraph(a, LocalRecolor(G1, t, cand, order))
    else
      ColoredGraph(a, G.color)
  }

  /** The tie-breaks and eviction orders the two repairs of dc_local_delete may use. */
  ghost predicate DeleteChoice(G: ColoredGraph, u: Node, v: Node,
                               candU: nat, orderU: seq<Node>, candV: nat, orderV: seq<Node>)
    requires Valid(G) && Total(G)
  {
    HasEdge(G.adj, u, v) ==>
      var a := RemoveEdge(G.adj, u, v);
      var G1 := ColoredGraph(a, G.color);
      && IsMinimiser(G1, u, candU) && Enumerates(orderU, a[u])
      && Enumerates(orderV, a[v])
      && IsMinimiser(ColoredGraph(a, LocalRecolor(G1, u, candU, orderU)), v, candV)
  }

  /**
   dc_local_delete: if the edge {u, v} exists, remove it and repair u, then v;
   otherwise do nothing.
   */
  function LocalDelete(G: ColoredGraph, u: Node, v: Node,
                       candU: nat, orderU: seq<Node>, candV: nat, orderV: seq<Node>): (r: ColoredGraph)
    requires Valid(G) && Total(G)
    requires DeleteChoice(G, u, v, candU, orderU, candV, orderV)
    ensures Valid(r) && Total(r) && r.adj.Keys == G.adj.Keys
    ensures !HasEdge(G.adj, u, v) ==> r == G
    ensures HasEdge(G.adj, u, v) ==>
      forall x, y :: HasEdge(r.adj, x, y) <==> HasEdge(G.adj, x, y) && !(x == u && y == v) && !(x == v && y == u)
    ensures forall w | w in G.color && r.color[w] != G.color[w] ::
      HasEdge(G.adj, u, v) && (w == u || w == v || w in r.adj[u] || w in r.adj[v])
    ensures Proper(G) ==> Proper(r)
  {
    if HasEdge(G.adj, u, v) then
      var a := RemoveEdge(G.adj, u, v);
      var G1 := ColoredGraph(a, G.color);
      assert Proper(G) ==> Proper(G1);
      var G2 := ColoredGraph(a, LocalRecolor(G1, u, candU, orderU));
      assert Proper(G2) ==> ProperAwayFrom(G2, v);
      ColoredGraph(a, LocalRecolor(G2, v, candV, orderV))
    else
      G
  }

  /** G is the single edge {0, 1} with node 0 coloured c0 and node 1 coloured c1. */
  ghost predicate IsSingleEdge(G: ColoredGraph, c0: nat, c1: nat) {
    && Valid(G) && Total(G)
    && G.adj.Keys == {0, 1} && G.adj[0] == {1} && G.adj[1] == {0}
    && G.color[0] == c0 && G.color[1] == c1
    && Enumerates([1], G.adj[0])
  }

  /** The single edge {0, 1}, coloured c0 and c1. */
  function SingleEdge(c0: nat, c1: nat): (G: ColoredGraph)
    ensures IsSingleEdge(G, c0, c1)
  {
    var G := ColoredGraph(map[0 := {1}, 1 := {0}], map[0 := c0, 1 := c1]);
    assert G.adj.Keys == {0, 1};
    G
  }

  lemma SingleEdgeColors(G: ColoredGraph, c0: nat, c1: nat)
    requires IsSingleEdge(G, c0, c1)
    ensures UsedColors(G, 0) == {c1}
    ensures LocalColors(G, 0) == {c0, c1}
    ensures Holders(G, 0, c1) == {1}
    ensures c0 != c1 ==> Holders(G, 0, c0) == {}
  {
    assert G.color[1] in UsedColors(G, 0);
  }

  /** Recolouring the single edge keeps it the single edge, with the new endpoint colours. */
  lemma SingleEdgeRecoloured(G: ColoredGraph, a: nat, b: nat, r: Coloring, c0: nat, c1: nat)
    requires IsSingleEdge(G, a, b)
    requires r.Keys == G.color.Keys && r[0] == c0 && r[1] == c1
    ensures IsSingleEdge(ColoredGraph(G.adj, r), c0, c1)
  {
  }

  /** On the edge coloured (1, 0), colour 0 is contended by node 1, of degree 1, and colour 1 by nobody. */
  lemma SingleEdgeScores(G: ColoredGraph)
    requires IsSingleEdge(G, 1, 0)
    ensures Score(G, 0, 0) == 1 && Score(G, 0, 1) == 0
  {
    SingleEdgeColors(G, 1, 0);
  }

  /** First repair of node 0 when it holds 1 and node 1 holds 0: the dense case with c_cand = max C = 1. */
  lemma FirstRepairOfEdge(G: ColoredGraph, cand: nat)
    requires IsSingleEdge(G, 1, 0)
    ensures IsMinimiser(G, 0, cand) ==>
      IsSingleEdge(ColoredGraph(G.adj, LocalRecolor(G, 0, cand, [1])), 2, 0)
  {
    if IsMinimiser(G, 0, cand) {
      SingleEdgeColors(G, 1, 0);
      SingleEdgeScores(G);
      assert SetMax(LocalColors(G, 0)) == 1;
      assert cand == 1;
      assert !HasGap(G, 0) by {
        var C := LocalColors(G, 0);
        forall k: nat | k < SetMax(C)
          ensures k in C
        {
          assert k == 0;
        }
      }
      RecolorFallsBack(G, 0, cand, [1]);
      SingleEdgeRecoloured(G, 1, 0, LocalRecolor(G, 0, cand, [1]), 2, 0);
    }
  }

  /** Second repair of node 0 when it holds 2 and node 1 holds 0: colour 1 is a gap below max C = 2. */
  lemma SecondRepairOfEdge(G: ColoredGraph, cand: nat)
    requires IsSingleEdge(G, 2, 0)
    ensures IsMinimiser(G, 0, cand) ==>
      IsSingleEdge(ColoredGraph(G.adj, LocalRecolor(G, 0, cand, [1])), 1, 0)
  {
    if IsMinimiser(G, 0, cand) {
      SingleEdgeColors(G, 2, 0);
      assert SetMax(LocalColors(G, 0)) == 2;
      assert 1 !in LocalColors(G, 0);
      RecolorFillsGap(G, 0, cand, [1]);
      var r := LocalRecolor(G, 0, cand, [1]);
      assert r[0] == 1 by {
        assert r[0] !in LocalColors(G, 0) && r[0] < 2;
      }
      SingleEdgeRecoloured(G, 2, 0, r, 1, 0);
    }
  }

  /**
   The repair is not idempotent. On the single edge {0, 1} with node 0 coloured
   1 and node 1 coloured 0, C = {0, 1} has no gap and its least contended colour
   is 1 = max C, so node 0 moves to the new colour 2; a second repair of that
   output finds the gap 1 and moves node 0 back to colour 1.
   */
  lemma RecolorNotIdempotent(G: ColoredGraph, cand1: nat, cand2: nat)
    requires IsSingleEdge(G, 1, 0)
    ensures IsMinimiser(G, 0, cand1) ==>
      var once := ColoredGraph(G.adj, LocalRecolor(G, 0, cand1, [1]));
      && IsSingleEdge(once, 2, 0)
      && (IsMinimiser(once, 0, cand2) ==>
            IsSingleEdge(ColoredGraph(G.adj, LocalRecolor(once, 0, cand2, [1])), 1, 0))
  {
    FirstRepairOfEdge(G, cand1);
    if IsMinimiser(G, 0, cand1) {
      var once := ColoredGraph(G.adj, LocalRecolor(G, 0, cand1, [1]));
      SecondRepairOfEdge(once, cand2);
    }
  }

  /** A concrete instance: with the least-valued tie-break, node 0 of the edge coloured (1, 0) goes to 2, then back to 1. */
  lemma RepairTwiceOnSingleEdge()
    ensures var G := SingleEdge(1, 0);
      var once := ColoredGraph(G.adj, LocalRecolor(G, 0, LeastMinimiser(G, 0), [1]));
      && IsSingleEdge(once, 2, 0)
      && LocalRecolor(once, 0, LeastMinimiser(once, 0), [1])[0] == 1
  {
    var G := SingleEdge(1, 0);
    var once := ColoredGraph(G.adj, LocalRecolor(G, 0, LeastMinimiser(G, 0), [1]));
    RecolorNotIdempotent(G, LeastMinimiser(G, 0), LeastMinimiser(once, 0));
  }
}
