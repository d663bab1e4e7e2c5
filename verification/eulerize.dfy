/**
 * Eulerization (`add_minimum_weight_matching`): when some vertex has odd
 * degree, the original edges are copied into a new multigraph and, for every
 * matched pair of odd vertices, one parallel copy of each edge on the
 * shortest path between them is added. The matching and the paths come from
 * outside (a minimum-weight matching routine and a shortest-path routine);
 * the model takes them as parameters.
 *
 * Adding the copies of a u-v path changes the parity of the degrees of u and
 * v only (every interior vertex gains two), so duplicating the paths of a
 * perfect matching of the odd vertices leaves every degree even.
 */
module Eulerize {
  import opened Graphs
  import opened OddDegree
  import opened MultiGraphs

  /** The pairs of the matching, in the order they are visited. */
  type Matching = seq<(Vertex, Vertex)>

  /** The shortest-path routine on the original graph: the vertex sequence it returns from u to v. */
  type PathOracle = (Vertex, Vertex) -> seq<Vertex>

  /** `p` starts at `a` and ends at `b`. */
  ghost predicate JoinsPair(p: seq<Vertex>, a: Vertex, b: Vertex)
  {
    |p| >= 1 && p[0] == a && p[|p| - 1] == b
  }

  /** Each step of `p` follows an edge of the graph. */
  ghost predicate FollowsEdges(edges: seq<Edge>, p: seq<Vertex>)
  {
    forall i :: 0 <= i < |p| - 1 ==> Linked(edges, p[i], p[i + 1])
  }

  /** The path returned for every matched pair runs between the two ends of the pair. */
  ghost predicate PathsJoinPairs(matching: Matching, shortestPath: PathOracle)
  {
    forall i :: 0 <= i < |matching| ==> JoinsPair(shortestPath(matching[i].0, matching[i].1), matching[i].0, matching[i].1)
  }

  /** The path returned for every matched pair follows edges of the graph. */
  ghost predicate PathsFollowEdges(edges: seq<Edge>, matching: Matching, shortestPath: PathOracle)
  {
    forall i :: 0 <= i < |matching| ==> FollowsEdges(edges, shortestPath(matching[i].0, matching[i].1))
  }

  /**
   * One new parallel edge per step of the path `p`, each carrying the weight
   * the original graph has between the two vertices of the step.
   */
  function PathCopies(edges: seq<Edge>, p: seq<Vertex>): (r: seq<Edge>)
    ensures |r| == if p == [] then 0 else |p| - 1
  {
    if |p| <= 1 then []
    else
      var a, b := p[|p| - 2], p[|p| - 1];
      PathCopies(edges, p[..|p| - 1]) + [Edge(a, b, KeyWeight(edges, {a, b}))]
  }

  /** The copies added for every pair of the matching, pair after pair. */
  function Duplicates(edges: seq<Edge>, matching: Matching, shortestPath: PathOracle): seq<Edge>
  {
    if matching == [] then []
    else
      var (u, v) := matching[|matching| - 1];
      Duplicates(edges, matching[..|matching| - 1], shortestPath) + PathCopies(edges, shortestPath(u, v))
  }

  /** The edges eulerization adds to `g`: none when `g` has no odd-degree vertex. */
  function AddedEdges(g: Graph, matching: Matching, shortestPath: PathOracle): seq<Edge>
  {
    if OddFilter(g.nodes, g.edges) == [] then [] else Duplicates(g.edges, matching, shortestPath)
  }

  /**
   * The node list of the eulerized graph: the copy keeps `g`'s nodes; the
   * rebuilt multigraph lists the endpoints of its edges in order of first
   * appearance.
   */
  function EulerizedNodes(g: Graph, matching: Matching, shortestPath: PathOracle): seq<Vertex>
  {
    if OddFilter(g.nodes, g.edges) == [] then g.nodes else NodesOf(g.edges + Duplicates(g.edges, matching, shortestPath))
  }

  /** How many times `x` is an end of a matched pair. */
  function MatchCount(matching: Matching, x: Vertex): nat
  {
    if matching == [] then 0
    else
      var (u, v) := matching[|matching| - 1];
      MatchCount(matching[..|matching| - 1], x) + (if u == x then 1 else 0) + (if v == x then 1 else 0)
  }

  /** A perfect matching of `odd`: every listed vertex is in exactly one pair, no other vertex in any. */
  ghost predicate PerfectOn(matching: Matching, odd: seq<Vertex>)
  {
    forall x :: MatchCount(matching, x) == if x in odd then 1 else 0
  }

  /**
   * Builds the Eulerian multigraph: a copy of `g` when no vertex has odd
   * degree, otherwise every original edge followed by one copy of each
   * edge on the shortest path of every matched pair. Returns it with the
   * total weight of the copies.
   */
  method AddMinimumWeightMatching(g: Graph, matching: Matching, shortestPath: PathOracle)
    returns (eg: MultiGraph, addedWeight: nat)
    requires PathsFollowEdges(g.edges, matching, shortestPath)
    ensures fresh(eg)
    ensures OddFilter(g.nodes, g.edges) == [] ==> eg.nodes == g.nodes && eg.edges == g.edges && addedWeight == 0
    ensures eg.edges == g.edges + AddedEdges(g, matching, shortestPath)
    ensures eg.nodes == EulerizedNodes(g, matching, shortestPath)
    ensures addedWeight == TotalWeight(AddedEdges(g, matching, shortestPath))
    ensures WellFormed(g) ==> eg.Valid()
  {
    var odd := FindOddDegreeVertices(g);
    if odd == [] {
      eg := new MultiGraph.Copy(g);
      assert g.edges + [] == g.edges;
      return eg, 0;
    }

    eg := CopyEdges(g);
    addedWeight := 0;
    var j := 0;
    while j < |matching|
      invariant 0 <= j <= |matching|
      invariant fresh(eg)
      invariant eg.edges == g.edges + Duplicates(g.edges, matching[..j], shortestPath)
      invariant eg.nodes == NodesOf(eg.edges)
      invariant addedWeight == TotalWeight(Duplicates(g.edges, matching[..j], shortestPath))
    {
      var (u, v) := matching[j];
      var path := shortestPath(u, v);
      assert FollowsEdges(g.edges, path);
      var pathWeight := AddPathCopies(eg, g.edges, path);
      DuplicatesStep(g.edges, matching, shortestPath, j, g.edges);
      addedWeight := addedWeight + pathWeight;
      j := j + 1;
    }
    assert matching[..j] == matching;
    NodesOfWellFormed(eg.edges);
  }

  /** A new multigraph holding every edge of `g`, in order, with its weight. */
  method CopyEdges(g: Graph) returns (eg: MultiGraph)
    ensures fresh(eg) && eg.Valid()
    ensures eg.edges == g.edges
    ensures eg.nodes == NodesOf(g.edges)
  {
    eg := new MultiGraph();
    var i := 0;
    while i < |g.edges|
      invariant 0 <= i <= |g.edges|
      invariant fresh(eg)
      invariant eg.edges == g.edges[..i]
      invariant eg.nodes == NodesOf(eg.edges)
    {
      var e := g.edges[i];
      assert g.edges[..i + 1] == g.edges[..i] + [e];
      NodesOfSnoc(eg.edges, e);
      eg.AddEdge(e.u, e.v, e.w);
      i := i + 1;
    }
    assert g.edges[..i] == g.edges;
    NodesOfWellFormed(eg.edges);
  }

  /**
   * Adds to `eg` one parallel copy of each edge along `path`, weighted as in
   * the original graph, and returns the total weight added.
   */
  method AddPathCopies(eg: MultiGraph, edges: seq<Edge>, path: seq<Vertex>) returns (pathWeight: nat)
    requires eg.nodes == NodesOf(eg.edges)
    requires FollowsEdges(edges, path)
    modifies eg
    ensures eg.nodes == NodesOf(eg.edges)
    ensures eg.edges == old(eg.edges) + PathCopies(edges, path)
    ensures pathWeight == TotalWeight(PathCopies(edges, path))
  {
    pathWeight := 0;
    if |path| == 0 {
      return;
    }
    var k := 0;
    while k < |path| - 1
      invariant 0 <= k <= |path| - 1
      invariant eg.nodes == NodesOf(eg.edges)
      invariant eg.edges == old(eg.edges) + PathCopies(edges, path[..k + 1])
      invariant pathWeight == TotalWeight(PathCopies(edges, path[..k + 1]))
    {
      var node1, node2 := path[k], path[k + 1];
      StepWeight(edges, path, k);
      var weight := EdgeWeight(edges, node1, node2).value;
      PathCopiesStep(edges, path, k, old(eg.edges));
      NodesOfSnoc(eg.edges, Edge(node1, node2, weight));
      eg.AddEdge(node1, node2, weight);
      pathWeight := pathWeight + weight;
      k := k + 1;
    }
    assert path[..k + 1] == path;
  }

  /** Extending a path by one step adds the copy of that step's edge. */
  lemma PathCopiesSnoc(edges: seq<Edge>, p: seq<Vertex>, n: nat)
    requires 1 <= n < |p|
    ensures PathCopies(edges, p[..n + 1])
         == PathCopies(edges, p[..n]) + [Edge(p[n - 1], p[n], KeyWeight(edges, {p[n - 1], p[n]}))]
  {
    assert p[..n + 1][..n] == p[..n];
  }

  /** The lookup for a step of a path that follows edges succeeds. */
  lemma StepWeight(edges: seq<Edge>, p: seq<Vertex>, k: nat)
    requires FollowsEdges(edges, p) && k + 1 < |p|
    ensures EdgeWeight(edges, p[k], p[k + 1]) == Some(KeyWeight(edges, {p[k], p[k + 1]}))
  {
    assert Linked(edges, p[k], p[k + 1]);
    EdgeWeightFound(edges, p[k], p[k + 1]);
  }

  /** One more step of the path: its copy goes at the end, and its weight onto the sum. */
  lemma PathCopiesStep(edges: seq<Edge>, p: seq<Vertex>, k: nat, before: seq<Edge>)
    requires k + 1 < |p|
    ensures before + PathCopies(edges, p[..k + 2])
         == before + PathCopies(edges, p[..k + 1]) + [Edge(p[k], p[k + 1], KeyWeight(edges, {p[k], p[k + 1]}))]
    ensures TotalWeight(PathCopies(edges, p[..k + 2]))
         == TotalWeight(PathCopies(edges, p[..k + 1])) + KeyWeight(edges, {p[k], p[k + 1]})
  {
    var copy := Edge(p[k], p[k + 1], KeyWeight(edges, {p[k], p[k + 1]}));
    PathCopiesSnoc(edges, p, k + 1);
    TotalWeightAppend(PathCopies(edges, p[..k + 1]), [copy]);
    assert before + PathCopies(edges, p[..k + 1]) + [copy] == before + (PathCopies(edges, p[..k + 1]) + [copy]);
  }

  /** Copy `i` of a path joins the path's `i`-th and next vertex, with their weight in the original graph. */
  lemma {:induction false} PathCopiesAt(edges: seq<Edge>, p: seq<Vertex>, i: nat)
    requires i < |p| - 1
    ensures PathCopies(edges, p)[i] == Edge(p[i], p[i + 1], KeyWeight(edges, {p[i], p[i + 1]}))
  {
    var init := p[..|p| - 1];
    if i < |p| - 2 {
      PathCopiesAt(edges, init, i);
      assert init[i] == p[i] && init[i + 1] == p[i + 1];
    }
  }

  /** Taking one more matched pair adds the copies of that pair's path. */
  /**
   * Handling pair `j` of the matching appends the copies of its path after
   * the edges `before`, and adds their weight to the added weight.
   */
  lemma DuplicatesStep(edges: seq<Edge>, matching: Matching, shortestPath: PathOracle, j: nat, before: seq<Edge>)
    requires j < |matching|
    ensures before + Duplicates(edges, matching[..j + 1], shortestPath)
         == before + Duplicates(edges, matching[..j], shortestPath) + PathCopies(edges, shortestPath(matching[j].0, matching[j].1))
    ensures TotalWeight(Duplicates(edges, matching[..j + 1], shortestPath))
         == TotalWeight(Duplicates(edges, matching[..j], shortestPath)) + TotalWeight(PathCopies(edges, shortestPath(matching[j].0, matching[j].1)))
  {
    var front := Duplicates(edges, matching[..j], shortestPath);
    var copies := PathCopies(edges, shortestPath(matching[j].0, matching[j].1));
    assert matching[..j + 1][..j] == matching[..j];
    assert before + front + copies == before + (front + copies);
    TotalWeightAppend(front, copies);
  }

  /** How many times `x` occurs on the path `p`. */
  function Visits(p: seq<Vertex>, x: Vertex): nat
  {
    if p == [] then 0 else Visits(p[..|p| - 1], x) + (if p[|p| - 1] == x then 1 else 0)
  }

  /**
   * The copies of a path's edges give `x` two endpoints per visit, less one
   * for each end of the path that is `x`.
   */
  lemma {:induction false} PathDegree(edges: seq<Edge>, p: seq<Vertex>, x: Vertex)
    requires |p| >= 1
    ensures Degree(PathCopies(edges, p), x) + (if p[0] == x then 1 else 0) + (if p[|p| - 1] == x then 1 else 0)
         == 2 * Visits(p, x)
  {
    var init := p[..|p| - 1];
    if |p| == 1 {
      assert init == [];
    } else {
      var a, b := p[|p| - 2], p[|p| - 1];
      var e := Edge(a, b, KeyWeight(edges, {a, b}));
      PathDegree(edges, init, x);
      assert PathCopies(edges, p) == PathCopies(edges, init) + [e];
      DegreeAppend(PathCopies(edges, init), [e], x);
      DegreeSingle(e, x);
    }
  }

  /**
   * Copying a path's edges changes the degree parity of exactly its two ends
   * (of none, when it ends where it starts).
   */
  lemma PathParity(edges: seq<Edge>, p: seq<Vertex>, x: Vertex)
    requires |p| >= 1
    ensures IsOdd(Degree(PathCopies(edges, p), x)) <==> ((p[0] == x) != (p[|p| - 1] == x))
  {
    PathDegree(edges, p, x);
  }

  /** How many times `x` occurs on the paths of all matched pairs. */
  function PathVisits(matching: Matching, shortestPath: PathOracle, x: Vertex): nat
  {
    if matching == [] then 0
    else
      var (u, v) := matching[|matching| - 1];
      PathVisits(matching[..|matching| - 1], shortestPath, x) + Visits(shortestPath(u, v), x)
  }

  /**
   * All the copies together give `x` two endpoints per visit on a matched
   * path, less one per matched pair that `x` is an end of.
   */
  lemma {:induction false} DuplicatesDegree(edges: seq<Edge>, matching: Matching, shortestPath: PathOracle, x: Vertex)
    requires PathsJoinPairs(matching, shortestPath)
    ensures Degree(Duplicates(edges, matching, shortestPath), x) + MatchCount(matching, x)
         == 2 * PathVisits(matching, shortestPath, x)
  {
    if matching != [] {
      var n := |matching| - 1;
      var init := matching[..n];
      var u, v := matching[n].0, matching[n].1;
      var p := shortestPath(u, v);
      var front := Duplicates(edges, init, shortestPath);
      var copies := PathCopies(edges, p);
      assert Duplicates(edges, matching, shortestPath) == front + copies;
      DegreeAppend(front, copies, x);
      assert JoinsPair(p, u, v);
      PathDegree(edges, p, x);
      assert PathsJoinPairs(init, shortestPath) by {
        forall i | 0 <= i < n
          ensures JoinsPair(shortestPath(init[i].0, init[i].1), init[i].0, init[i].1)
        {
          assert init[i] == matching[i];
        }
      }
      DuplicatesDegree(edges, init, shortestPath, x);
    }
  }

  /**
   * Duplicating the shortest paths of a perfect matching of the odd-degree
   * vertices leaves every vertex with even degree.
   */
  lemma EulerizedAllEven(g: Graph, matching: Matching, shortestPath: PathOracle)
    requires WellFormed(g)
    requires PathsJoinPairs(matching, shortestPath)
    requires PerfectOn(matching, OddFilter(g.nodes, g.edges))
    ensures forall x :: Degree(g.edges + AddedEdges(g, matching, shortestPath), x) % 2 == 0
  {
    forall x
      ensures Degree(g.edges + AddedEdges(g, matching, shortestPath), x) % 2 == 0
    {
      EulerizedEvenAt(g, matching, shortestPath, x);
    }
  }

  lemma EulerizedEvenAt(g: Graph, matching: Matching, shortestPath: PathOracle, x: Vertex)
    requires WellFormed(g)
    requires PathsJoinPairs(matching, shortestPath)
    requires PerfectOn(matching, OddFilter(g.nodes, g.edges))
    ensures Degree(g.edges + AddedEdges(g, matching, shortestPath), x) % 2 == 0
  {
    var added := AddedEdges(g, matching, shortestPath);
    var d := Degree(g.edges, x);
    if OddFilter(g.nodes, g.edges) == [] {
      assert g.edges + added == g.edges;
      OddVertexListed(g, x);
    } else {
      DegreeAppend(g.edges, added, x);
      MatchedWhenOdd(g, matching, x);
      DuplicatesDegree(g.edges, matching, shortestPath, x);
      EvenSum(d, MatchCount(matching, x), Degree(added, x), PathVisits(matching, shortestPath, x));
    }
  }

  /**
   * When `d` and `m` have the same parity and `a + m == 2k`, `d + a` is even.
   * Kept apart so that this arithmetic is not proved in the context of the
   * graph facts, where it is far more expensive.
   */
  lemma EvenSum(d: nat, m: nat, a: nat, k: nat)
    requires m == if d % 2 != 0 then 1 else 0
    requires a + m == 2 * k
    ensures (d + a) % 2 == 0
  {
  }

  /** Under a perfect matching of the odd vertices, a vertex is matched once if its degree is odd and never otherwise. */
  lemma MatchedWhenOdd(g: Graph, matching: Matching, x: Vertex)
    requires WellFormed(g)
    requires PerfectOn(matching, OddFilter(g.nodes, g.edges))
    ensures MatchCount(matching, x) == if IsOdd(Degree(g.edges, x)) then 1 else 0
  {
    OddVertexListed(g, x);
  }

  /** In a well-formed graph, a vertex has odd degree exactly when the odd-vertex scan lists it. */
  lemma OddVertexListed(g: Graph, x: Vertex)
    requires WellFormed(g)
    ensures IsOdd(Degree(g.edges, x)) <==> x in OddFilter(g.nodes, g.edges)
  {
    OddFilterMembers(g.nodes, g.edges);
    if x !in g.nodes {
      DegreeOfStranger(g.edges, x);
    }
  }

  /** Every copy joins two vertices the original graph joins, and carries the weight the original lookup finds. */
  lemma AddedEdgesAreCopies(g: Graph, matching: Matching, shortestPath: PathOracle)
    requires PathsFollowEdges(g.edges, matching, shortestPath)
    ensures forall d :: d in AddedEdges(g, matching, shortestPath) ==> EdgeWeight(g.edges, d.u, d.v) == Some(d.w)
  {
    if OddFilter(g.nodes, g.edges) != [] {
      DuplicatesAreCopies(g.edges, matching, shortestPath);
    }
  }

  lemma {:induction false} DuplicatesAreCopies(edges: seq<Edge>, matching: Matching, shortestPath: PathOracle)
    requires PathsFollowEdges(edges, matching, shortestPath)
    ensures forall d :: d in Duplicates(edges, matching, shortestPath) ==> EdgeWeight(edges, d.u, d.v) == Some(d.w)
  {
    if matching != [] {
      var n := |matching| - 1;
      var init := matching[..n];
      var p := shortestPath(matching[n].0, matching[n].1);
      assert PathsFollowEdges(edges, init, shortestPath) by {
        forall i | 0 <= i < n
          ensures FollowsEdges(edges, shortestPath(init[i].0, init[i].1))
        {
          assert init[i] == matching[i];
        }
      }
      DuplicatesAreCopies(edges, init, shortestPath);
      assert FollowsEdges(edges, p);
      PathCopiesAreCopies(edges, p);
      assert Duplicates(edges, matching, shortestPath) == Duplicates(edges, init, shortestPath) + PathCopies(edges, p);
    }
  }

  lemma PathCopiesAreCopies(edges: seq<Edge>, p: seq<Vertex>)
    requires FollowsEdges(edges, p)
    ensures forall d :: d in PathCopies(edges, p) ==> EdgeWeight(edges, d.u, d.v) == Some(d.w)
  {
    forall d | d in PathCopies(edges, p)
      ensures EdgeWeight(edges, d.u, d.v) == Some(d.w)
    {
      var i :| 0 <= i < |PathCopies(edges, p)| && PathCopies(edges, p)[i] == d;
      PathCopiesAt(edges, p, i);
      assert Linked(edges, p[i], p[i + 1]);
      EdgeWeightFound(edges, p[i], p[i + 1]);
    }
  }
}
