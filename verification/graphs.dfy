/**
 * The weighted undirected (multi)graph that the postman solver works on:
 * vertices, weighted edge records, degrees, and the weight lookups that
 * `graph[u][v]['weight']` and `multigraph[u][v][0]['weight']` perform.
 *
 * A graph is a node list plus an edge list. The node list is in node order
 * (the order `graph.nodes()` reports); the edge list is in the order
 * `graph.edges()` reports. Parallel edges are separate records.
 */
module Graphs {

  type Vertex = string

  datatype Option<T> = None | Some(value: T)

  /** One edge record: endpoints and a non-negative weight. */
  datatype Edge = Edge(u: Vertex, v: Vertex, w: nat)

  datatype Graph = Graph(nodes: seq<Vertex>, edges: seq<Edge>)

  /** The unordered pair of endpoints of an edge (a singleton for a self-loop). */
  function Ends(e: Edge): set<Vertex>
  {
    {e.u, e.v}
  }

  predicate Distinct(s: seq<Vertex>)
  {
    forall i, j :: 0 <= i < j < |s| ==> s[i] != s[j]
  }

  /** Nodes are listed once each and every edge joins listed nodes. */
  predicate WellFormed(g: Graph)
  {
    Distinct(g.nodes) && forall e :: e in g.edges ==> e.u in g.nodes && e.v in g.nodes
  }

  /** How many endpoints of `e` are `x`: a self-loop at `x` counts twice. */
  function Incidence(e: Edge, x: Vertex): nat
  {
    (if e.u == x then 1 else 0) + (if e.v == x then 1 else 0)
  }

  /** The degree of `x`: the number of edge endpoints that are `x`. */
  function Degree(edges: seq<Edge>, x: Vertex): nat
  {
    if edges == [] then 0 else Degree(edges[..|edges| - 1], x) + Incidence(edges[|edges| - 1], x)
  }

  predicate IsOdd(n: nat)
  {
    n % 2 != 0
  }

  lemma {:induction false} DegreeAppend(a: seq<Edge>, b: seq<Edge>, x: Vertex)
    ensures Degree(a + b, x) == Degree(a, x) + Degree(b, x)
  {
    if b == [] {
      assert a + b == a;
    } else {
      assert (a + b)[..|a + b| - 1] == a + b[..|b| - 1];
      DegreeAppend(a, b[..|b| - 1], x);
    }
  }

  lemma DegreeSingle(e: Edge, x: Vertex)
    ensures Degree([e], x) == Incidence(e, x)
  {
    assert [e][..0] == [];
  }

  /** A vertex that is no edge's endpoint has degree 0. */
  lemma {:induction false} DegreeOfStranger(edges: seq<Edge>, x: Vertex)
    requires forall e :: e in edges ==> e.u != x && e.v != x
    ensures Degree(edges, x) == 0
  {
    if edges != [] {
      assert edges[|edges| - 1] in edges;
      DegreeOfStranger(edges[..|edges| - 1], x);
    }
  }

  /** Sum of the weights of the records. */
  function TotalWeight(edges: seq<Edge>): nat
  {
    if edges == [] then 0 else TotalWeight(edges[..|edges| - 1]) + edges[|edges| - 1].w
  }

  lemma {:induction false} TotalWeightAppend(a: seq<Edge>, b: seq<Edge>)
    ensures TotalWeight(a + b) == TotalWeight(a) + TotalWeight(b)
  {
    if b == [] {
      assert a + b == a;
    } else {
      assert (a + b)[..|a + b| - 1] == a + b[..|b| - 1];
      TotalWeightAppend(a, b[..|b| - 1]);
    }
  }

  /** Some record joins `a` and `b` (in either direction). */
  ghost predicate Linked(edges: seq<Edge>, a: Vertex, b: Vertex)
  {
    exists i :: 0 <= i < |edges| && Ends(edges[i]) == {a, b}
  }

  /**
   * The position of the first record whose endpoints are the pair `k`:
   * the edge that `graph[u][v]` finds for a simple graph, and the parallel
   * edge with key 0 (the earliest added) for a multigraph.
   */
  function FirstIndex(edges: seq<Edge>, k: set<Vertex>): (r: Option<nat>)
    ensures r.None? <==> forall i :: 0 <= i < |edges| ==> Ends(edges[i]) != k
    ensures r.Some? ==> r.value < |edges| && Ends(edges[r.value]) == k
    ensures r.Some? ==> forall j :: 0 <= j < r.value ==> Ends(edges[j]) != k
  {
    if edges == [] then None
    else if Ends(edges[0]) == k then Some(0)
    else match FirstIndex(edges[1..], k)
      case None => None
      case Some(i) => Some(i + 1)
  }

  /**
   * The weight of the first record joining the pair `k`. The 0 for a pair no
   * record joins is a placeholder the solver never produces (its lookup raises
   * `KeyError` there, see `EdgeWeight`); every contract that sums these
   * weights has a hypothesis (paths follow edges, the circuit covers the
   * edges) under which each pair looked up is joined by some record.
   */
  function KeyWeight(edges: seq<Edge>, k: set<Vertex>): nat
  {
    match FirstIndex(edges, k)
    case None => 0
    case Some(i) => edges[i].w
  }

  /**
   * `graph[a][b]['weight']`: the `KeyWeight` lookup of the pair, or `None`
   * (the lookup's `KeyError`) when no record joins `a` and `b`.
   */
  function EdgeWeight(edges: seq<Edge>, a: Vertex, b: Vertex): Option<nat>
  {
    if FirstIndex(edges, {a, b}).None? then None else Some(KeyWeight(edges, {a, b}))
  }

  /** The lookup succeeds exactly when some record joins the two vertices, and then agrees with `KeyWeight`. */
  lemma EdgeWeightFound(edges: seq<Edge>, a: Vertex, b: Vertex)
    ensures EdgeWeight(edges, a, b).Some? <==> Linked(edges, a, b)
    ensures EdgeWeight(edges, a, b).Some? ==> EdgeWeight(edges, a, b).value == KeyWeight(edges, {a, b})
  {
  }

  /** Records appended after a pair's first record do not change what a lookup finds. */
  lemma {:induction false} FirstIndexPrefix(a: seq<Edge>, b: seq<Edge>, k: set<Vertex>)
    requires FirstIndex(a, k).Some?
    ensures FirstIndex(a + b, k) == FirstIndex(a, k)
  {
    if Ends(a[0]) != k {
      assert (a + b)[1..] == a[1..] + b;
      FirstIndexPrefix(a[1..], b, k);
    }
  }

  /** Lookup by the pair of an edge that is present always finds some record. */
  lemma FirstIndexOfMember(edges: seq<Edge>, i: nat)
    requires i < |edges|
    ensures FirstIndex(edges, Ends(edges[i])).Some?
    ensures FirstIndex(edges, Ends(edges[i])).value <= i
  {
  }

  /** No two records join the same pair: the shape of a simple graph's edge list. */
  predicate Simple(edges: seq<Edge>)
  {
    forall i, j :: 0 <= i < j < |edges| ==> Ends(edges[i]) != Ends(edges[j])
  }

  /** In a simple graph the lookup for an edge's pair finds that edge. */
  lemma FirstIndexSimple(edges: seq<Edge>, i: nat)
    requires Simple(edges) && i < |edges|
    ensures FirstIndex(edges, Ends(edges[i])) == Some(i)
  {
    var r := FirstIndex(edges, Ends(edges[i]));
    assert r.Some?;
  }

  /** The endpoint pairs of the records, in order. */
  function EdgeKeys(edges: seq<Edge>): (r: seq<set<Vertex>>)
    ensures |r| == |edges|
  {
    seq(|edges|, i requires 0 <= i < |edges| => Ends(edges[i]))
  }

  /** Sum of the weights looked up in `table` for each pair of `keys`. */
  function SumWeights(keys: seq<set<Vertex>>, table: seq<Edge>): nat
  {
    if keys == [] then 0 else SumWeights(keys[..|keys| - 1], table) + KeyWeight(table, keys[|keys| - 1])
  }

  lemma {:induction false} SumWeightsAppend(a: seq<set<Vertex>>, b: seq<set<Vertex>>, table: seq<Edge>)
    ensures SumWeights(a + b, table) == SumWeights(a, table) + SumWeights(b, table)
  {
    if b == [] {
      assert a + b == a;
    } else {
      assert (a + b)[..|a + b| - 1] == a + b[..|b| - 1];
      SumWeightsAppend(a, b[..|b| - 1], table);
    }
  }

  /** A sum of looked-up weights depends only on the multiset of pairs looked up. */
  lemma {:induction false} SumWeightsPermutation(a: seq<set<Vertex>>, b: seq<set<Vertex>>, table: seq<Edge>)
    requires multiset(a) == multiset(b)
    ensures SumWeights(a, table) == SumWeights(b, table)
    decreases |a|
  {
    if a == [] {
      assert |b| == |multiset(b)| == 0;
    } else {
      var x := a[|a| - 1];
      var a' := a[..|a| - 1];
      assert a == a' + [x];
      assert x in multiset(b);
      var i :| 0 <= i < |b| && b[i] == x;
      MultisetRemove(b, i);
      assert multiset(a') == multiset(a) - multiset{x};
      SumWeightsPermutation(a', b[..i] + b[i + 1..], table);
      SumWeightsRemove(b, i, table);
    }
  }

  /** Removing the element at `i` removes one occurrence of it from the multiset. */
  lemma MultisetRemove<T>(s: seq<T>, i: nat)
    requires i < |s|
    ensures multiset(s[..i] + s[i + 1..]) == multiset(s) - multiset{s[i]}
  {
    assert s == s[..i] + [s[i]] + s[i + 1..];
  }

  /** The sum over `keys` is the sum without the key at `i`, plus that key's weight. */
  lemma SumWeightsRemove(keys: seq<set<Vertex>>, i: nat, table: seq<Edge>)
    requires i < |keys|
    ensures SumWeights(keys, table) == SumWeights(keys[..i] + keys[i + 1..], table) + KeyWeight(table, keys[i])
  {
    var x := keys[i];
    assert keys == keys[..i] + [x] + keys[i + 1..];
    SumWeightsAppend(keys[..i] + [x], keys[i + 1..], table);
    SumWeightsAppend(keys[..i], [x], table);
    SumWeightsAppend(keys[..i], keys[i + 1..], table);
    assert [x][..0] == [];
  }

  /** Looking the same pairs up in two tables that agree on them gives the same sum. */
  lemma {:induction false} SumWeightsAgree(keys: seq<set<Vertex>>, t1: seq<Edge>, t2: seq<Edge>)
    requires forall i :: 0 <= i < |keys| ==> KeyWeight(t1, keys[i]) == KeyWeight(t2, keys[i])
    ensures SumWeights(keys, t1) == SumWeights(keys, t2)
  {
    if keys != [] {
      SumWeightsAgree(keys[..|keys| - 1], t1, t2);
    }
  }

  /** When every record's own pair looks up to its own weight, the looked-up sum is the plain sum. */
  lemma {:induction false} SumWeightsOwn(edges: seq<Edge>, table: seq<Edge>)
    requires forall i :: 0 <= i < |edges| ==> KeyWeight(table, Ends(edges[i])) == edges[i].w
    ensures SumWeights(EdgeKeys(edges), table) == TotalWeight(edges)
  {
    if edges != [] {
      var init := edges[..|edges| - 1];
      assert EdgeKeys(edges)[..|edges| - 1] == EdgeKeys(init);
      SumWeightsOwn(init, table);
    }
  }
}
