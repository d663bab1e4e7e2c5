/**
 * The Eulerian multigraph under construction: a node list and an edge list
 * that grow through `AddEdge`, which, like a multigraph's `add_edge`, always
 * appends a new parallel record and registers endpoints not seen before.
 */
module MultiGraphs {
  import opened Graphs

  /** Registers `x` at the end of the node list unless it is already there. */
  function AddNode(nodes: seq<Vertex>, x: Vertex): seq<Vertex>
  {
    if x in nodes then nodes else nodes + [x]
  }

  /**
   * The node list of a multigraph built from nothing by adding `edges` in
   * order: endpoints in order of first appearance.
   */
  function NodesOf(edges: seq<Edge>): seq<Vertex>
  {
    if edges == [] then []
    else
      var e := edges[|edges| - 1];
      AddNode(AddNode(NodesOf(edges[..|edges| - 1]), e.u), e.v)
  }

  /** Every endpoint is listed once, and nothing else is listed. */
  lemma {:induction false} NodesOfMembers(edges: seq<Edge>)
    ensures Distinct(NodesOf(edges))
    ensures forall x :: x in NodesOf(edges) <==> Degree(edges, x) > 0
  {
    if edges != [] {
      NodesOfMembers(edges[..|edges| - 1]);
    }
  }

  lemma NodesOfSnoc(edges: seq<Edge>, e: Edge)
    ensures NodesOf(edges + [e]) == AddNode(AddNode(NodesOf(edges), e.u), e.v)
  {
    assert (edges + [e])[..|edges|] == edges;
  }

  /** An edge's endpoints have positive degree. */
  lemma EndpointDegree(edges: seq<Edge>, i: nat)
    requires i < |edges|
    ensures Degree(edges, edges[i].u) > 0 && Degree(edges, edges[i].v) > 0
  {
    var e := edges[i];
    assert edges == edges[..i] + [e] + edges[i + 1..];
    DegreeAppend(edges[..i] + [e], edges[i + 1..], e.u);
    DegreeAppend(edges[..i], [e], e.u);
    DegreeAppend(edges[..i] + [e], edges[i + 1..], e.v);
    DegreeAppend(edges[..i], [e], e.v);
    DegreeSingle(e, e.u);
    DegreeSingle(e, e.v);
  }

  /** The node list a multigraph builds from its edges makes it well formed. */
  lemma NodesOfWellFormed(edges: seq<Edge>)
    ensures WellFormed(Graph(NodesOf(edges), edges))
  {
    NodesOfMembers(edges);
    forall e | e in edges
      ensures e.u in NodesOf(edges) && e.v in NodesOf(edges)
    {
      var i :| 0 <= i < |edges| && edges[i] == e;
      EndpointDegree(edges, i);
    }
  }

  class MultiGraph {
    var nodes: seq<Vertex>
    var edges: seq<Edge>

    /** Nodes are listed once each and every edge joins listed nodes. */
    predicate Valid()
      reads this
    {
      WellFormed(Graph(nodes, edges))
    }

    /** An empty multigraph. */
    constructor ()
      ensures Valid()
      ensures nodes == [] && edges == []
    {
      nodes := [];
      edges := [];
    }

    /** A copy of `g`, with the same nodes and edges in the same order. */
    constructor Copy(g: Graph)
      ensures nodes == g.nodes && edges == g.edges
      ensures Valid() <==> WellFormed(g)
    {
      nodes := g.nodes;
      edges := g.edges;
    }

    /** Appends a new parallel edge; endpoints not yet present join the node list, `u` first. */
    method AddEdge(u: Vertex, v: Vertex, w: nat)
      modifies this
      ensures old(Valid()) ==> Valid()
      ensures edges == old(edges) + [Edge(u, v, w)]
      ensures nodes == AddNode(AddNode(old(nodes), u), v)
    {
      nodes := AddNode(AddNode(nodes, u), v);
      edges := edges + [Edge(u, v, w)];
    }
  }
}
