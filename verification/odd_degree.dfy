/**
 * Odd-degree detection (`find_odd_degree_vertices`) and the handshake
 * lemma: a graph always has an even number of odd-degree vertices, which is
 * what lets the matching step pair all of them up.
 */
module OddDegree {
  import opened Graphs

  /** The nodes whose degree is odd, kept in node order. */
  function OddFilter(nodes: seq<Vertex>, edges: seq<Edge>): (r: seq<Vertex>)
    ensures |r| <= |nodes|
  {
    if nodes == [] then []
    else
      var last := nodes[|nodes| - 1];
      OddFilter(nodes[..|nodes| - 1], edges) + (if IsOdd(Degree(edges, last)) then [last] else [])
  }

  /**
   * Scans the nodes in order and collects each node of odd degree.
   */
  method FindOddDegreeVertices(g: Graph) returns (odd: seq<Vertex>)
    ensures odd == OddFilter(g.nodes, g.edges)
    ensures forall x :: x in odd <==> x in g.nodes && IsOdd(Degree(g.edges, x))
    ensures Distinct(g.nodes) ==> Distinct(odd)
  {
    odd := [];
    var i := 0;
    while i < |g.nodes|
      invariant 0 <= i <= |g.nodes|
      invariant odd == OddFilter(g.nodes[..i], g.edges)
    {
      var node := g.nodes[i];
      assert g.nodes[..i + 1][..i] == g.nodes[..i];
      if Degree(g.edges, node) % 2 != 0 {
        odd := odd + [node];
      }
      i := i + 1;
    }
    assert g.nodes[..i] == g.nodes;
    OddFilterMembers(g.nodes, g.edges);
    if Distinct(g.nodes) {
      OddFilterDistinct(g.nodes, g.edges);
    }
  }

  /** Exactly the listed nodes of odd degree are reported. */
  lemma {:induction false} OddFilterMembers(nodes: seq<Vertex>, edges: seq<Edge>)
    ensures forall x :: x in OddFilter(nodes, edges) <==> x in nodes && IsOdd(Degree(edges, x))
  {
    if nodes != [] {
      OddFilterMembers(nodes[..|nodes| - 1], edges);
      assert nodes == nodes[..|nodes| - 1] + [nodes[|nodes| - 1]];
    }
  }

  /** Filtering distributes over concatenation: the result keeps node order. */
  lemma {:induction false} OddFilterAppend(a: seq<Vertex>, b: seq<Vertex>, edges: seq<Edge>)
    ensures OddFilter(a + b, edges) == OddFilter(a, edges) + OddFilter(b, edges)
  {
    if b == [] {
      assert a + b == a;
    } else {
      assert (a + b)[..|a + b| - 1] == a + b[..|b| - 1];
      OddFilterAppend(a, b[..|b| - 1], edges);
    }
  }

  /** Each odd node is reported once when the node list has no repeats. */
  lemma {:induction false} OddFilterDistinct(nodes: seq<Vertex>, edges: seq<Edge>)
    requires Distinct(nodes)
    ensures Distinct(OddFilter(nodes, edges))
  {
    if nodes != [] {
      var init := nodes[..|nodes| - 1];
      var last := nodes[|nodes| - 1];
      OddFilterDistinct(init, edges);
      OddFilterMembers(init, edges);
      assert last !in init;
    }
  }

  /** Sum of the degrees of the listed nodes. */
  function DegreeSum(nodes: seq<Vertex>, edges: seq<Edge>): nat
  {
    if nodes == [] then 0 else DegreeSum(nodes[..|nodes| - 1], edges) + Degree(edges, nodes[|nodes| - 1])
  }

  /** The degree sum has the parity of the number of odd-degree nodes. */
  lemma {:induction false} DegreeSumParity(nodes: seq<Vertex>, edges: seq<Edge>)
    ensures DegreeSum(nodes, edges) % 2 == |OddFilter(nodes, edges)| % 2
  {
    if nodes != [] {
      DegreeSumParity(nodes[..|nodes| - 1], edges);
    }
  }

  lemma {:induction false} DegreeSumSplit(nodes: seq<Vertex>, a: seq<Edge>, b: seq<Edge>)
    ensures DegreeSum(nodes, a + b) == DegreeSum(nodes, a) + DegreeSum(nodes, b)
  {
    if nodes != [] {
      DegreeSumSplit(nodes[..|nodes| - 1], a, b);
      DegreeAppend(a, b, nodes[|nodes| - 1]);
    }
  }

  /** Over distinct nodes, one edge contributes one per endpoint that is listed. */
  lemma {:induction false} EdgeDegreeSum(nodes: seq<Vertex>, e: Edge)
    requires Distinct(nodes)
    ensures DegreeSum(nodes, [e]) == (if e.u in nodes then 1 else 0) + (if e.v in nodes then 1 else 0)
  {
    if nodes != [] {
      var init := nodes[..|nodes| - 1];
      var last := nodes[|nodes| - 1];
      assert nodes == init + [last];
      assert last !in init;
      EdgeDegreeSum(init, e);
      DegreeSingle(e, last);
    }
  }

  /** Every edge adds two to the degree sum of a well-formed graph. */
  lemma {:induction false} DegreeSumIsTwiceEdgeCount(nodes: seq<Vertex>, edges: seq<Edge>)
    requires WellFormed(Graph(nodes, edges))
    ensures DegreeSum(nodes, edges) == 2 * |edges|
  {
    if edges == [] {
      if nodes != [] {
        DegreeSumIsTwiceEdgeCount(nodes[..|nodes| - 1], edges);
      }
    } else {
      var init := edges[..|edges| - 1];
      var last := edges[|edges| - 1];
      assert edges == init + [last];
      assert last in edges;
      DegreeSumIsTwiceEdgeCount(nodes, init);
      DegreeSumSplit(nodes, init, [last]);
      EdgeDegreeSum(nodes, last);
    }
  }

  /** The handshake lemma: a graph has an even number of odd-degree vertices. */
  lemma Handshake(g: Graph)
    requires WellFormed(g)
    ensures |OddFilter(g.nodes, g.edges)| % 2 == 0
  {
    DegreeSumParity(g.nodes, g.edges);
    DegreeSumIsTwiceEdgeCount(g.nodes, g.edges);
  }
}
