# Chinese Postman solver — a verified model

This project models the core of `problema_carteiro_chines.py`, a solver for the
Chinese Postman (route inspection) problem on a weighted undirected graph. It
then proves properties of that model. The solver has four steps:

1. **Odd-degree scan.** `find_odd_degree_vertices` lists, in node order, the
   nodes whose degree is odd.
2. **Eulerization.** `add_minimum_weight_matching` handles the odd-degree
   vertices.
   - With no odd-degree vertex, it returns a copy of the graph and an added
     weight of 0.
   - Otherwise it builds a new multigraph from the original edges.
   - Then, for every pair of a minimum-weight matching of the odd-degree
     vertices, it adds one parallel copy of each edge on the shortest path
     between the two vertices.
   - It returns the multigraph and the total weight of the copies.
3. **Circuit search.** `find_eulerian_circuit` first checks that the
   multigraph is Eulerian and raises an error if it is not. It then asks the
   library for an Eulerian circuit, starting from the given vertex or, if none
   is given, from the first node.
4. **Driver.** `solve_chinese_postman` runs steps 1-3.
   - It sums the weights of the original edges.
   - It attaches to each circuit step `(u, v)` the weight of the first
     parallel `u`-`v` edge.
   - It reports `total_cost = original_cost + added_cost`.

The modules follow that structure:

- `graphs.dfy` (`Graphs`): vertices, edge records, graphs as values, degrees,
  and the weight lookups that `graph[u][v]['weight']` and
  `multigraph[u][v][0]['weight']` perform.
- `odd_degree.dfy` (`OddDegree`): the odd-degree scan and the handshake lemma.
- `multigraph.dfy` (`MultiGraphs`): the multigraph under construction, as a
  class whose edge list grows through `AddEdge`.
- `eulerize.dfy` (`Eulerize`): the eulerization loops, and the proof that
  duplicating the paths of a perfect matching makes every degree even.
- `postman.dfy` (`Postman`): the Eulerian check, circuit formatting and the
  driver. It also proves that the weights reported along a circuit that uses
  every edge once add up to the total cost.

How the model represents the solver's data:

- **Graphs.** A graph is a node list plus an edge list. For the input graph
  these are in `graph.nodes()` and `graph.edges()` order. The eulerized
  multigraph's edge list is in `add_edge` order instead: the original edges,
  then the copies, as lines 43-58 add them. That order decides which
  parallel edge has key 0; networkx's own `MultiGraph.edges()` reports the
  same records grouped node by node. Its node list is in order of first
  appearance as an endpoint. Parallel edges are separate records.
- **Degree.** A vertex's degree is its number of edge endpoints; a self-loop
  counts twice.
- **Weight lookup.** A lookup for the pair `{u, v}` finds the first record
  joining `u` and `v`. In a multigraph that is the parallel edge with key 0,
  the one added first. A missing pair is the lookup's `KeyError`.

What the library provides is passed in as parameters:

- the matching, as a sequence of vertex pairs;
- the shortest-path routine, as a function from a pair to a vertex sequence;
- the connectivity test;
- the Eulerian-circuit routine.

The library's promises about these become hypotheses of the lemmas:

- Each returned path runs from `u` to `v` along edges of the graph.
- The matching pairs each odd vertex exactly once.
- The circuit traverses each edge once.

Three behaviours of the code that a reader might expect otherwise:

- **Unreachable odd vertices.** A pair of odd-degree vertices with no path
  between them is silently skipped when the complete graph is built (lines
  30-31). No error is raised there; the resulting multigraph then fails the
  `is_eulerian` test at line 65 (`NotEulerian` here).
- **Graphs with no edges.** There is no empty-graph check. A graph with no
  node at all raises from the connectivity test inside `is_eulerian`
  (`NullGraph` here).
- **Default start vertex.** Without a start vertex the circuit starts at
  `list(graph.nodes())[0]` (line 69), the first node, whether or not it has
  an incident edge.

## Model

| member | source | states |
|---|---|---|
| OddDegree.FindOddDegreeVertices | problema_carteiro_chines.py:5-11 | the scan returns exactly the nodes of odd degree, in node order, each once when the node list has no repeats |
| OddDegree.OddFilterMembers | problema_carteiro_chines.py:8-10 | a vertex is reported iff it is a node of the graph and its degree is odd |
| OddDegree.OddFilterAppend | problema_carteiro_chines.py:8-10 | scanning two node lists one after the other gives the two results concatenated, so node order is kept |
| OddDegree.OddFilterDistinct | problema_carteiro_chines.py:8-10 | no vertex is reported twice when nodes are listed once |
| OddDegree.DegreeSumIsTwiceEdgeCount | problema_carteiro_chines.py:9 | in a well-formed graph the degrees of the nodes sum to twice the number of edges |
| OddDegree.Handshake | problema_carteiro_chines.py:21-24 | a well-formed graph has an even number of odd-degree vertices, so they can all be paired |
| MultiGraphs.MultiGraph.constructor | problema_carteiro_chines.py:40 | a new multigraph has no nodes and no edges |
| MultiGraphs.MultiGraph.Copy | problema_carteiro_chines.py:23-24 | the copy has the graph's nodes and edges, in the same order, and is well formed iff the graph is |
| MultiGraphs.MultiGraph.AddEdge | problema_carteiro_chines.py:43-44 | adding an edge appends a new parallel record, appends the endpoints not yet present (u first), and keeps the multigraph well formed |
| MultiGraphs.NodesOfMembers | problema_carteiro_chines.py:40-44 | a multigraph built by adding edges lists each endpoint once and nothing else |
| MultiGraphs.NodesOfWellFormed | problema_carteiro_chines.py:40-44 | a multigraph built by adding edges is well formed |
| Eulerize.AddMinimumWeightMatching | problema_carteiro_chines.py:13-61 | with no odd vertex: the copy of the graph and weight 0; otherwise the original edges followed by one copy per path step of each matched pair, nodes in order of first appearance, and the added weight is the sum of the copies' weights |
| Eulerize.CopyEdges | problema_carteiro_chines.py:39-44 | the new multigraph holds the original edges in order with their weights and is well formed |
| Eulerize.AddPathCopies | problema_carteiro_chines.py:52-59 | one parallel copy of each path step is appended, weighted as in the original graph, and the returned weight is their sum |
| Eulerize.PathCopiesAt | problema_carteiro_chines.py:53-58 | copy i joins path vertices i and i+1 and carries the original weight between them |
| Eulerize.StepWeight | problema_carteiro_chines.py:55 | when a path follows edges, the lookup for each of its steps succeeds |
| Eulerize.PathDegree | problema_carteiro_chines.py:53-58 | the copies of a path give a vertex two endpoints per visit, less one for each end of the path it is |
| Eulerize.PathParity | problema_carteiro_chines.py:53-58 | duplicating a path changes the degree parity of its two ends and of no other vertex |
| Eulerize.DuplicatesDegree | problema_carteiro_chines.py:47-59 | over all matched paths, the added degree of a vertex plus the number of pairs it is an end of is even |
| Eulerize.EulerizedAllEven | problema_carteiro_chines.py:13-19 | when the matching pairs up exactly the odd-degree vertices, every degree in the eulerized multigraph is even |
| Eulerize.OddVertexListed | problema_carteiro_chines.py:5-11 | in a well-formed graph a vertex has odd degree iff the scan lists it |
| Eulerize.MatchedWhenOdd | problema_carteiro_chines.py:21-37 | under a perfect matching of the odd vertices, a vertex is matched once iff its degree is odd |
| Eulerize.AddedEdgesAreCopies | problema_carteiro_chines.py:55-58 | every added edge joins two vertices the original graph joins and carries the weight the original lookup finds |
| Graphs.FirstIndex | problema_carteiro_chines.py:92 | the lookup finds the first record joining the pair, or reports that none does |
| Graphs.EdgeWeightFound | problema_carteiro_chines.py:55 | the weight lookup succeeds iff some record joins the two vertices |
| Graphs.FirstIndexPrefix | problema_carteiro_chines.py:58 | adding parallel edges after a pair's first record does not change which record the lookup finds (key 0 stays the earliest edge) |
| Graphs.FirstIndexSimple | problema_carteiro_chines.py:80 | in a graph with one record per pair, the lookup for an edge's pair finds that edge |
| Graphs.SumWeightsPermutation | problema_carteiro_chines.py:89-96 | a sum of looked-up weights does not depend on the order of the pairs |
| Postman.FindEulerianCircuit | problema_carteiro_chines.py:63-71 | a graph with an odd-degree node, or one that is not connected, is rejected; a graph with no node fails the connectivity test; otherwise the circuit starts at the given vertex or at the first node |
| Postman.EulerizedPassesDegreeTest | problema_carteiro_chines.py:65-66 | for a perfect matching of the odd vertices, the eulerized multigraph passes the degree test, so only connectivity can make the search fail |
| Postman.FormatCircuit | problema_carteiro_chines.py:89-93 | the formatted circuit has one entry per step, keeps each step's (u, v) and attaches the weight of the first u-v edge; it fails iff some step joins two vertices that no edge joins |
| Postman.OriginalCostSimple | problema_carteiro_chines.py:80 | for a graph with one record per pair, original_cost is the sum of the edge weights |
| Postman.SolveChinesePostman | problema_carteiro_chines.py:73-101 | errors of the circuit search pass through. total_cost = original_cost + added_cost ≥ original_cost, and equals original_cost when there is no odd vertex. Entries are formatted as above. When the circuit traverses every edge once, the solver succeeds and the reported weights add up to total_cost |
| Postman.CircuitWeightsAddUp | problema_carteiro_chines.py:89-96 | the weights attached to a circuit that traverses every edge of the eulerized multigraph once sum to original_cost + added_cost |
| Postman.CoveringStepsLinked | problema_carteiro_chines.py:89-92 | a circuit that traverses every edge once only steps between joined vertices, so the weight lookup cannot fail |

## Left out

- Plotting (`draw_graph`, `visualize_circuit`, lines 103-167) and the example driver (lines 169-289): rendering and console output, not logic.
- The complete graph over the odd vertices (lines 27-34) and the minimum-weight matching (line 37) are not modelled. The matching is a parameter. Whether it is optimal is not modelled; only the "pairs each odd vertex once" property is used, as a hypothesis.
- The shortest-path routine (lines 31-34, 50), the connectivity part of `is_eulerian` (line 65) and `eulerian_circuit` (line 71) are library code. They are parameters; their promises are hypotheses of the lemmas that need them.
- Weights are non-negative integers (`nat`), not floating-point numbers.
- `graph.copy()` returns a simple graph while the other branch builds a multigraph. The model represents both with the same class. Both lookups are modelled as "first record joining the pair", which is what both perform on the graphs the solver builds.
- A start vertex that is not in the graph is passed to the circuit routine unchanged. What that routine then does is not modelled.
- Vertex labels are strings; only their equality is used.
- Every edge record carries a weight. An edge without a `'weight'` attribute, which makes the lookups at lines 55, 80 and 92 raise `KeyError` and which the shortest-path routine weighs as 1, is not modelled.
- Postman.OriginalCost and Postman.SolveChinesePostman accept edge lists with several records for one pair and then sum first-record weights. The solver never receives such input: `nx.Graph` merges repeated `add_edge` calls, and a `MultiGraph` input makes line 80 raise `KeyError`, because `graph[u][v]` is keyed by edge key there. Results on input that is not `Simple` describe no behaviour of the solver; `Postman.OriginalCostSimple` states the sum for the input the solver does receive.
- Eulerize.AddMinimumWeightMatching: requires that every matched pair's path follows edges of the graph, as the shortest-path routine guarantees. The model does not represent the `KeyError` a path with a missing edge would raise.

## Findings

None. The proofs that hold for the code as written include the weight sum over a covering circuit. That sum holds even though the formatting reads the weight of the first parallel edge rather than the edge actually traversed, because every added copy carries the weight of the original edge it duplicates.
