# Dynamic graph colouring: local repair and static-degree greedy

This project models the core of a small dynamic graph-colouring library in
Dafny. An undirected simple graph (`Graphs.Adjacency`, a map from node to its
neighbour set) carries a colour per node (`Graphs.Coloring`). The library
changes the graph one edge at a time and keeps the colouring proper with local
work only:

- `smallest_unassigned_color` is the first-fit query. It returns the least colour in
  `[0, deg(u)]` that no coloured neighbour holds.
- `dc_local_recolor` repairs one node `u`. It looks at the colour set `C` of `u` and its
  neighbours. If `C` has a gap below its maximum, `u` moves into the least gap.
  Otherwise it picks the least contended colour `c_cand`, whose score is the
  largest degree of a neighbour holding it. If `c_cand` is not `max C`, `u` takes
  it and each neighbour still on it is moved once, by the first-fit query. If
  `c_cand` is `max C`, `u` takes the fresh colour `max C + 1`.
- `dc_local_insert` adds an edge and repairs the endpoint with fewer neighbours when
  the two endpoints share a colour.
- `dc_local_delete` removes an existing edge and repairs both endpoints.
- `dsatur_coloring` recolours the whole graph. It sorts the nodes by degree,
  descending, and gives each one the least colour absent from its already-visited
  neighbours. Any colours already present are overwritten.

Python's mutation in place becomes a returned map. Two things the code leaves to
dictionary and adjacency iteration order become parameters:

- `cand`: any minimiser of the score. `Algo.LeastMinimiser` gives one deterministic choice.
- `order`: an enumeration of the neighbours the eviction loop visits, each once.

`Dsatur.DsaturColoring` also takes `nodes`, an enumeration of the graph's nodes
in the order that precedes the stable sort.

A natural expectation is that repairing a node twice changes nothing. The code
does not behave that way. On the single edge `{0, 1}` with colours `1` and `0`,
repairing node 0 gives it colour 2. Repairing it again moves it back to colour
1, because 1 is now a gap below `max C = 2`. `Algo.RecolorNotIdempotent` proves this for every admissible
tie-break, `Algo.RepairTwiceOnSingleEdge` gives the concrete instance, and the
model follows the code.

Files: `colors.dfy` (colour-set arithmetic: mex, max, min),
`graphs.dfy` (graphs, properness, edge edits, enumerations), `algo.dfy` (query, repair,
insert, delete), `dsatur.dfy` (sorting by degree and the greedy pass).

## Model

| member | source | states |
|---|---|---|
| Colors.Mex | algo.py:2-4 | the least natural missing from a colour set: it is absent, every smaller colour is present, and it is at most the set's size |
| Colors.MexUnique | dsatur.py:8-10 | the counting loop's result is the only colour that is absent while every smaller colour is present, so it equals Mex |
| Colors.SetMax | algo.py:9 | `max C` is a member of C and bounds every member |
| Colors.SetMin | algo.py:20 | the least member of a non-empty set, used to pick among equally scored colours |
| Graphs.UsedColors | algo.py:3 | exactly the colours held by coloured neighbours of u, and no more of them than u has neighbours |
| Graphs.ImageSize | algo.py:2-4 | a node set's colours are no more numerous than the nodes, so `range(deg+1)` always keeps a free colour |
| Graphs.ProperFromAway | algo.py:6-27 | if no edge avoiding u joins two nodes of the same colour, and u's colour differs from every coloured neighbour's, then the colouring is proper |
| Graphs.AddEdge | algo.py:30 | keeps the graph simple and the node set fixed; the edges after are those before plus {u, v} |
| Graphs.RemoveEdge | algo.py:37 | keeps the graph simple and the node set fixed; the edges after are those before minus {u, v} |
| Graphs.AddThenRemove | algo.py:29-39 | removing an edge just added to a graph that lacked it restores the graph |
| Graphs.RemoveThenAdd | algo.py:29-39 | adding back an edge just removed restores the graph |
| Algo.SmallestUnassignedColor | algo.py:1-4 | at most deg(u), held by no coloured neighbour, and every smaller colour is held by one |
| Algo.LocalColorsClosed | algo.py:7-8 | C is exactly the set of colours on u's closed neighbourhood, so it has at most deg(u) + 1 members |
| Algo.GapColor | algo.py:9-10 | c_min is absent from C with every smaller colour present, is never max C, and is max C + 1 exactly when C covers [0, max C] |
| Algo.Score | algo.py:15-18 | the contention of c bounds the degree of every neighbour holding c and is attained by one of them, or is 0 when none holds it |
| Algo.LeastMinimiser | algo.py:20 | a colour of C with least contention, and the least of all such colours |
| Algo.Evict | algo.py:23-25 | the eviction loop keeps the set of coloured nodes |
| Algo.EvictFacts | algo.py:22-25 | after the loop u keeps its colour; every visited neighbour is off it; only visited neighbours that held it change, each to at most its degree; edges away from u stay proper |
| Algo.EvictVisited | algo.py:22-25 | after the loop u keeps c_cand and no visited neighbour still holds it |
| Algo.EvictFrame | algo.py:23-25 | the loop changes only visited neighbours that held c_cand, and gives each a colour at most its degree |
| Algo.EvictKeepsProper | algo.py:23-25 | the loop creates no conflict on an edge away from u |
| Algo.EvictOne | algo.py:24-25 | one loop step moves the visited neighbour off u's colour if it held it, and changes nothing else |
| Algo.LocalRecolor | algo.py:6-27 | after the repair u differs from every neighbour; its colour is at most max C + 1 and never max C; only neighbours that held u's new colour change; a colouring proper away from u becomes proper |
| Algo.MoveToFreeColor | algo.py:26-27 | giving u a colour outside C, at most max C + 1, separates u from its neighbours and changes no other node |
| Algo.EvictionBranch | algo.py:21-25 | in the eviction branch u holds c_cand, every neighbour ends on another colour, and properness away from u becomes properness |
| Algo.RecolorFillsGap | algo.py:12-13 | whenever a colour below max C is missing from C, the repair moves u to the least such colour and changes nothing else |
| Algo.DenseNeighbourhood | algo.py:10-21 | when no colour below max C is missing from C, c_min is max C + 1 and the test c_cand < c_min - 1 means c_cand is not max C |
| Algo.NoGapSet | algo.py:10 | a colour set with nothing missing below its maximum has max C + 1 as its gap colour |
| Algo.RecolorEvicts | algo.py:20-25 | whenever there is no gap and c_cand is not max C, u takes c_cand and every neighbour that held c_cand leaves it for a colour at most its degree |
| Algo.RecolorFallsBack | algo.py:26-27 | whenever there is no gap and c_cand is max C, u takes max C + 1 and no other node changes |
| Algo.InsertTarget | algo.py:32 | the endpoint with the fewer neighbours, u on a tie |
| Algo.LocalInsert | algo.py:29-33 | adds exactly the edge {u, v}; leaves colours alone when they already differ; always separates u and v; only the repaired endpoint and its neighbours change; properness is kept |
| Algo.LocalDelete | algo.py:35-39 | a missing edge changes nothing; otherwise exactly {u, v} is removed; only u, v and their neighbours change colour; properness is kept |
| Algo.SingleEdgeColors | algo.py:7-18 | on the single edge, C is the two endpoint colours and the only holder of the neighbour's colour is the neighbour |
| Algo.SingleEdgeScores | algo.py:15-18 | on the edge coloured (1, 0), colour 0 has contention 1 and colour 1 has contention 0 |
| Algo.FirstRepairOfEdge | algo.py:6-27 | on the edge coloured (1, 0), repairing node 0 gives it colour 2 whatever the tie-break |
| Algo.SecondRepairOfEdge | algo.py:6-27 | on the edge coloured (2, 0), repairing node 0 gives it colour 1 whatever the tie-break |
| Algo.RecolorNotIdempotent | algo.py:6-27 | two consecutive repairs of the same node can give different colours, so the repair is not idempotent |
| Algo.RepairTwiceOnSingleEdge | algo.py:6-27 | with the least-valued tie-break, two repairs of node 0 on the edge coloured (1, 0) give 2 and then 1 |
| Dsatur.InsertByDegree | dsatur.py:3 | one insertion step of the sort adds x to the sequence and keeps the other elements |
| Dsatur.InsertBounded | dsatur.py:3 | insertion keeps every element at most a given degree |
| Dsatur.InsertKeepsDescending | dsatur.py:3 | inserting into a sequence sorted by descending degree keeps it sorted |
| Dsatur.DistinctByMultiset | dsatur.py:3 | a permutation of a sequence without repeats has no repeats |
| Dsatur.SortByDegree | dsatur.py:3 | the visiting order is a permutation of the nodes, sorted by descending degree |
| Dsatur.FirstFree | dsatur.py:7-10 | the counting loop stops at a colour no already-coloured neighbour holds, with every smaller colour held by one, and at most the node's degree |
| Dsatur.Greedy | dsatur.py:6-11 | the greedy pass colours exactly the visited nodes |
| Dsatur.GreedyProper | dsatur.py:7-11 | the greedy pass gives a proper colouring with every colour at most the node's degree |
| Dsatur.GreedyStep | dsatur.py:11 | assigning a node a colour no neighbour holds keeps a proper colouring proper |
| Dsatur.DsaturColoring | dsatur.py:1-15 | keeps the graph, colours every node, gives a proper colouring, and no colour exceeds its node's degree |
| Dsatur.DsaturIgnoresOldColors | dsatur.py:14-15 | the result does not depend on the colours present before; it is the greedy pass over the sorted order |
| Dsatur.SameKeys | dsatur.py:3 | the sorted order visits exactly the graph's nodes |
| Dsatur.GreedyColorsAll | dsatur.py:6-11 | the greedy pass over the sorted order colours exactly the graph's nodes |
| Dsatur.OverwriteAll | dsatur.py:14-15 | writing a map over every existing colour entry leaves only the new colours |
| Dsatur.GreedyStepKeeps | dsatur.py:11 | one step changes only the visited node's colour |
| Dsatur.GreedyKeepsEarlier | dsatur.py:6-11 | a node's colour is fixed once assigned when it is not visited again |
| Dsatur.GreedyPrefix | dsatur.py:6-11 | colours of nodes visited in a prefix are final |
| Dsatur.EarlierNeighboursKept | dsatur.py:7 | earlier neighbours already have their final colours when the node is visited |
| Dsatur.ColourOfVisited | dsatur.py:7-11 | the node's colour is the first-fit colour against its earlier neighbours' colours |
| Dsatur.UsedColorsThrough | dsatur.py:7 | the colours seen by the step are the image of the earlier neighbours |
| Dsatur.FirstFit | dsatur.py:7-10 | each node's colour is missing from its earlier neighbours' colours, every smaller colour appears there, and it is at most their number |
| Dsatur.DsaturFirstFit | dsatur.py:3-11 | in the final colouring each node's colour is the least one its earlier-visited neighbours lack |

## Left out

- `test.py`: random graph generation, timing, plotting and output files are outside the colouring logic.
- networkx itself is not part of this model. The graph is a map of neighbour sets; `add_edge` and `remove_edge` are modelled on it.
- Uncoloured nodes in the repair. The repair and the eviction loop read `G.nodes[u]['color']` and `G.nodes[v]['color']` without a guard, which fails on an uncoloured node. The model therefore requires every node to be coloured (`Total`). The guarded reads in `smallest_unassigned_color` and in building `C` are modelled with their guards.
- Insertion with a new node, or with `u == v`. `add_edge` would create the node uncoloured, so the colour read fails, or it would create a self-loop. The model requires both endpoints present and distinct.
- Iteration order. The choice of `c_cand` among equal scores and the order of the eviction loop depend on dictionary and adjacency order. They are parameters constrained to the admissible choices, not a fixed order.
- Algo.Evict: its own contract states only that the coloured nodes stay the same; what the loop does is stated by Algo.EvictFacts and the three lemmas it combines.
- Dsatur.SortByDegree: states descending degree and permutation, but not the stability of Python's sort. Only the order of ties depends on stability, and that order is already a parameter (`nodes`).
- `available_colors` in `dsatur_coloring` is written but never read, so it is not modelled.
- Optimality: neither routine promises a minimum colouring, and no bound against the chromatic number is stated.
- Integers are unbounded. Python integers do not wrap.
