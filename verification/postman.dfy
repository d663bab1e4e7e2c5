/**
 * The solver's driver (`solve_chinese_postman`) and the Eulerian-circuit
 * step it relies on (`find_eulerian_circuit`).
 *
 * The solver sums the weights of the original edges, eulerizes the graph,
 * asks the library for an Eulerian circuit of the result, and reports every
 * step of the circuit with the weight of the first parallel edge between its
 * two vertices. The connectivity test and the circuit routine of the library
 * are parameters of the model.
 */
module Postman {
  import opened Graphs
  import opened OddDegree
  import opened MultiGraphs
  import opened Eulerize

  /** The ways the solver can fail, standing for the exceptions it lets through. */
  datatype Error =
    | NotEulerian   // the graph is not Eulerian (the solver's own `NetworkXError`)
    | NullGraph     // the graph has no node: connectivity is undefined for it
    | NoSuchEdge    // a circuit step joins two vertices no edge joins (the lookup's `KeyError`)

  datatype Result<T> = Ok(value: T) | Err(error: Error)

  /** A circuit as the library reports it: the steps (u, v), in order. */
  type Circuit = seq<(Vertex, Vertex)>

  /** The library's connectivity test. */
  type ConnectivityTest = Graph -> bool

  /** The library's Eulerian-circuit routine, given the graph and the start vertex. */
  type CircuitRoutine = (Graph, Vertex) -> Circuit

  /** What the solver returns: the total cost and the circuit with a weight on every step. */
  datatype Solution = Solution(totalCost: nat, circuit: seq<Edge>)

  /** Every listed node has even degree. */
  predicate AllEven(g: Graph)
  {
    forall x :: x in g.nodes ==> Degree(g.edges, x) % 2 == 0
  }

  /** The library's Eulerian test: all degrees even, and a graph with nodes that is connected. */
  predicate IsEulerian(g: Graph, isConnected: ConnectivityTest)
  {
    AllEven(g) && g.nodes != [] && isConnected(g)
  }

  /**
   * Checks that `g` is Eulerian and asks for a circuit from `start`, or from
   * the first node when no start is given. The degree test comes first; a
   * graph without nodes passes it and then fails the connectivity test, which
   * has no answer for it.
   */
  function FindEulerianCircuit(g: Graph, start: Option<Vertex>, isConnected: ConnectivityTest,
                               eulerianCircuit: CircuitRoutine): (r: Result<Circuit>)
    ensures r.Ok? <==> IsEulerian(g, isConnected)
    ensures r == Err(NullGraph) <==> AllEven(g) && g.nodes == []
    ensures r.Err? ==> r.error != NoSuchEdge
    ensures r.Ok? && start.None? ==> r.value == eulerianCircuit(g, g.nodes[0])
    ensures r.Ok? && start.Some? ==> r.value == eulerianCircuit(g, start.value)
  {
    if !AllEven(g) then Err(NotEulerian)
    else if g.nodes == [] then Err(NullGraph)
    else if !isConnected(g) then Err(NotEulerian)
    else
      var source := if start.Some? then start.value else g.nodes[0];
      Ok(eulerianCircuit(g, source))
  }

  /** The sum of `graph[u][v]['weight']` over the edges `(u, v)` of the graph. */
  function OriginalCost(g: Graph): nat
  {
    SumWeights(EdgeKeys(g.edges), g.edges)
  }

  /** In a simple graph every lookup finds the edge itself, so the original cost is the plain sum of weights. */
  lemma OriginalCostSimple(g: Graph)
    requires Simple(g.edges)
    ensures OriginalCost(g) == TotalWeight(g.edges)
  {
    forall i | 0 <= i < |g.edges|
      ensures KeyWeight(g.edges, Ends(g.edges[i])) == g.edges[i].w
    {
      FirstIndexSimple(g.edges, i);
    }
    SumWeightsOwn(g.edges, g.edges);
  }

  /** The Eulerian multigraph built from `g`, as a value. */
  function Eulerized(g: Graph, matching: Matching, shortestPath: PathOracle): Graph
  {
    Graph(EulerizedNodes(g, matching, shortestPath), g.edges + AddedEdges(g, matching, shortestPath))
  }

  /** The endpoint pairs the circuit steps through, in order. */
  function StepKeys(circuit: Circuit): (r: seq<set<Vertex>>)
    ensures |r| == |circuit|
  {
    seq(|circuit|, i requires 0 <= i < |circuit| => {circuit[i].0, circuit[i].1})
  }

  /** The circuit traverses every edge record exactly once (in either direction). */
  ghost predicate Covers(circuit: Circuit, edges: seq<Edge>)
  {
    multiset(StepKeys(circuit)) == multiset(EdgeKeys(edges))
  }

  /** Every step of the circuit joins two vertices that some edge joins. */
  ghost predicate StepsLinked(circuit: Circuit, edges: seq<Edge>)
  {
    forall i :: 0 <= i < |circuit| ==> Linked(edges, circuit[i].0, circuit[i].1)
  }

  /** `entries` is the circuit with the weight of the first u-v edge attached to each step (u, v). */
  ghost predicate Formats(entries: seq<Edge>, circuit: Circuit, edges: seq<Edge>)
  {
    && |entries| == |circuit|
    && forall i :: 0 <= i < |circuit| ==>
         entries[i] == Edge(circuit[i].0, circuit[i].1, KeyWeight(edges, {circuit[i].0, circuit[i].1}))
  }

  /**
   * Attaches to every step (u, v) the weight of the first parallel u-v edge,
   * failing when a step joins two vertices no edge joins.
   */
  method FormatCircuit(edges: seq<Edge>, circuit: Circuit) returns (r: Result<seq<Edge>>)
    ensures r.Ok? <==> StepsLinked(circuit, edges)
    ensures r.Ok? ==> Formats(r.value, circuit, edges)
    ensures r.Err? ==> r.error == NoSuchEdge
  {
    var formatted := [];
    var i := 0;
    while i < |circuit|
      invariant 0 <= i <= |circuit|
      invariant StepsLinked(circuit[..i], edges)
      invariant Formats(formatted, circuit[..i], edges)
    {
      var (u, v) := circuit[i];
      var weight := EdgeWeight(edges, u, v);
      EdgeWeightFound(edges, u, v);
      if weight.None? {
        return Err(NoSuchEdge);
      }
      FormatStep(formatted, circuit, edges, i, weight.value);
      formatted := formatted + [Edge(u, v, weight.value)];
      i := i + 1;
    }
    assert circuit[..i] == circuit;
    return Ok(formatted);
  }

  /** Extending a formatted prefix by the next step's entry formats the longer prefix. */
  lemma FormatStep(formatted: seq<Edge>, circuit: Circuit, edges: seq<Edge>, i: nat, w: nat)
    requires i < |circuit|
    requires StepsLinked(circuit[..i], edges) && Formats(formatted, circuit[..i], edges)
    requires w == KeyWeight(edges, {circuit[i].0, circuit[i].1}) && Linked(edges, circuit[i].0, circuit[i].1)
    ensures StepsLinked(circuit[..i + 1], edges)
    ensures Formats(formatted + [Edge(circuit[i].0, circuit[i].1, w)], circuit[..i + 1], edges)
  {
    assert forall j :: 0 <= j < i ==> circuit[..i + 1][j] == circuit[..i][j];
  }

  /**
   * Solves the Chinese Postman problem for `g`: the cost of the original
   * edges plus the cost of the duplicated ones, and the Eulerian circuit of
   * the eulerized multigraph with a weight on every step.
   */
  method SolveChinesePostman(g: Graph, start: Option<Vertex>, matching: Matching, shortestPath: PathOracle,
                             isConnected: ConnectivityTest, eulerianCircuit: CircuitRoutine)
    returns (r: Result<Solution>)
    requires PathsFollowEdges(g.edges, matching, shortestPath)
    ensures var e := Eulerized(g, matching, shortestPath);
      match FindEulerianCircuit(e, start, isConnected, eulerianCircuit)
      case Err(error) => r == Err(error)
      case Ok(circuit) =>
        && (r.Ok? <==> StepsLinked(circuit, e.edges))
        && (r.Err? ==> r.error == NoSuchEdge)
        && (r.Ok? ==> Formats(r.value.circuit, circuit, e.edges))
        && (Covers(circuit, e.edges) ==> r.Ok? && TotalWeight(r.value.circuit) == r.value.totalCost)
    ensures r.Ok? ==> r.value.totalCost == OriginalCost(g) + TotalWeight(AddedEdges(g, matching, shortestPath))
    ensures r.Ok? ==> r.value.totalCost >= OriginalCost(g)
    ensures r.Ok? && OddFilter(g.nodes, g.edges) == [] ==> r.value.totalCost == OriginalCost(g)
  {
    var originalCost := OriginalCost(g);
    var eg, addedCost := AddMinimumWeightMatching(g, matching, shortestPath);
    var e := Graph(eg.nodes, eg.edges);
    var found := FindEulerianCircuit(e, start, isConnected, eulerianCircuit);
    if found.Err? {
      return Err(found.error);
    }
    var formatted := FormatCircuit(eg.edges, found.value);
    if Covers(found.value, e.edges) {
      CoveringStepsLinked(found.value, e.edges);
    }
    if formatted.Err? {
      return Err(formatted.error);
    }
    var totalCost := originalCost + addedCost;
    if Covers(found.value, e.edges) {
      CircuitWeightsAddUp(g, matching, shortestPath, found.value, formatted.value);
    }
    return Ok(Solution(totalCost, formatted.value));
  }

  /**
   * When the circuit traverses every edge of the eulerized multigraph once,
   * the weights reported along it add up to the total cost.
   */
  lemma CircuitWeightsAddUp(g: Graph, matching: Matching, shortestPath: PathOracle, circuit: Circuit, entries: seq<Edge>)
    requires PathsFollowEdges(g.edges, matching, shortestPath)
    requires Covers(circuit, Eulerized(g, matching, shortestPath).edges)
    requires Formats(entries, circuit, Eulerized(g, matching, shortestPath).edges)
    ensures TotalWeight(entries) == OriginalCost(g) + TotalWeight(AddedEdges(g, matching, shortestPath))
  {
    var added := AddedEdges(g, matching, shortestPath);
    var all := g.edges + added;
    FormattedWeight(entries, circuit, all);
    SumWeightsPermutation(StepKeys(circuit), EdgeKeys(all), all);
    EdgeKeysAppend(g.edges, added);
    SumWeightsAppend(EdgeKeys(g.edges), EdgeKeys(added), all);
    OriginalLookupsKept(g.edges, added);
    SumWeightsAgree(EdgeKeys(g.edges), all, g.edges);
    AddedLookupsFindCopies(g, matching, shortestPath);
    SumWeightsOwn(added, all);
  }

  /** A formatted circuit weighs what its steps look up. */
  lemma {:induction false} FormattedWeight(entries: seq<Edge>, circuit: Circuit, edges: seq<Edge>)
    requires Formats(entries, circuit, edges)
    ensures TotalWeight(entries) == SumWeights(StepKeys(circuit), edges)
  {
    if circuit != [] {
      var n := |circuit| - 1;
      assert StepKeys(circuit)[..n] == StepKeys(circuit[..n]);
      assert Formats(entries[..n], circuit[..n], edges);
      FormattedWeight(entries[..n], circuit[..n], edges);
    }
  }

  lemma EdgeKeysAppend(a: seq<Edge>, b: seq<Edge>)
    ensures EdgeKeys(a + b) == EdgeKeys(a) + EdgeKeys(b)
  {
  }

  /** Appending records does not change what the lookups of the earlier records' pairs find. */
  lemma OriginalLookupsKept(edges: seq<Edge>, added: seq<Edge>)
    ensures forall i :: 0 <= i < |EdgeKeys(edges)| ==>
      KeyWeight(edges + added, EdgeKeys(edges)[i]) == KeyWeight(edges, EdgeKeys(edges)[i])
  {
    forall i | 0 <= i < |edges|
      ensures KeyWeight(edges + added, Ends(edges[i])) == KeyWeight(edges, Ends(edges[i]))
    {
      FirstIndexOfMember(edges, i);
      FirstIndexPrefix(edges, added, Ends(edges[i]));
    }
  }

  /** In the eulerized multigraph, the lookup of an added copy's pair finds the original edge, whose weight the copy carries. */
  lemma AddedLookupsFindCopies(g: Graph, matching: Matching, shortestPath: PathOracle)
    requires PathsFollowEdges(g.edges, matching, shortestPath)
    ensures var added := AddedEdges(g, matching, shortestPath);
      forall i :: 0 <= i < |added| ==> KeyWeight(g.edges + added, Ends(added[i])) == added[i].w
  {
    var added := AddedEdges(g, matching, shortestPath);
    AddedEdgesAreCopies(g, matching, shortestPath);
    forall i | 0 <= i < |added|
      ensures KeyWeight(g.edges + added, Ends(added[i])) == added[i].w
    {
      var d := added[i];
      assert d in added;
      assert EdgeWeight(g.edges, d.u, d.v) == Some(d.w);
      FirstIndexPrefix(g.edges, added, Ends(d));
    }
  }

  /**
   * With a perfect matching of the odd-degree vertices, the eulerized
   * multigraph passes the degree test, so only connectivity can make the
   * circuit search fail.
   */
  lemma EulerizedPassesDegreeTest(g: Graph, matching: Matching, shortestPath: PathOracle, start: Option<Vertex>,
                                  isConnected: ConnectivityTest, eulerianCircuit: CircuitRoutine)
    requires WellFormed(g)
    requires PathsJoinPairs(matching, shortestPath)
    requires PerfectOn(matching, OddFilter(g.nodes, g.edges))
    ensures var e := Eulerized(g, matching, shortestPath);
      FindEulerianCircuit(e, start, isConnected, eulerianCircuit).Ok? <==> e.nodes != [] && isConnected(e)
  {
    EulerizedAllEven(g, matching, shortestPath);
  }

  /** A circuit that traverses every edge once only steps along edges. */
  lemma CoveringStepsLinked(circuit: Circuit, edges: seq<Edge>)
    requires Covers(circuit, edges)
    ensures StepsLinked(circuit, edges)
  {
    forall i | 0 <= i < |circuit|
      ensures Linked(edges, circuit[i].0, circuit[i].1)
    {
      var k := StepKeys(circuit)[i];
      assert k in multiset(EdgeKeys(edges));
      var j :| 0 <= j < |edges| && EdgeKeys(edges)[j] == k;
      assert Ends(edges[j]) == {circuit[i].0, circuit[i].1};
    }
  }
}
