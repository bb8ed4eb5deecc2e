/** traverseTopologicalOrder of src/util/graph.h:100-124: the handlers called for nodes and edges, as a log. */
module Traversal {
  import opened Sequences
  import opened Graphs
  import TopologicalSort

  datatype Call<V, E> = HandleNode(v: V) | HandleEdge(e: E)

  function EdgeCalls<V, E>(edges: seq<E>): (r: seq<Call<V, E>>)
    ensures |r| == |edges| && forall m :: 0 <= m < |edges| ==> r[m] == HandleEdge(edges[m])
  {
    if edges == [] then [] else EdgeCalls(edges[..|edges| - 1]) + [HandleEdge(edges[|edges| - 1])]
  }

  /** Every node is followed by all its edges. */
  function Calls<V(!new), E>(g: Graph<V, E>, sorted: seq<V>): seq<Call<V, E>> {
    if sorted == [] then []
    else Calls(g, sorted[..|sorted| - 1]) + [HandleNode(sorted[|sorted| - 1])] + EdgeCalls(g.out(sorted[|sorted| - 1]))
  }

  /** The nodes that a log handles, in order. */
  function HandledNodes<V, E>(calls: seq<Call<V, E>>): seq<V> {
    if calls == [] then []
    else
      HandledNodes(calls[..|calls| - 1]) +
      (match calls[|calls| - 1] case HandleNode(v) => [v] case HandleEdge(_) => [])
  }

  /** The edges that a log handles, in order. */
  function HandledEdges<V, E>(calls: seq<Call<V, E>>): seq<E> {
    if calls == [] then []
    else
      HandledEdges(calls[..|calls| - 1]) +
      (match calls[|calls| - 1] case HandleNode(_) => [] case HandleEdge(e) => [e])
  }

  /** The out edges of the nodes, one node after the other. */
  function OutEdges<V(!new), E>(g: Graph<V, E>, sorted: seq<V>): seq<E> {
    if sorted == [] then [] else OutEdges(g, sorted[..|sorted| - 1]) + g.out(sorted[|sorted| - 1])
  }

  lemma {:induction false} HandledByEdgeCalls<V, E>(calls: seq<Call<V, E>>, edges: seq<E>)
    ensures HandledNodes(calls + EdgeCalls(edges)) == HandledNodes(calls)
    ensures HandledEdges(calls + EdgeCalls(edges)) == HandledEdges(calls) + edges
    decreases |edges|
  {
    var all := calls + EdgeCalls(edges);
    if edges == [] {
      assert all == calls;
    } else {
      var front, last := edges[..|edges| - 1], edges[|edges| - 1];
      HandledByEdgeCalls(calls, front);
      assert all[..|all| - 1] == calls + EdgeCalls(front) && all[|all| - 1] == HandleEdge(last);
      assert HandledEdges(calls) + front + [last] == HandledEdges(calls) + edges;
    }
  }

  /** A traversal handles every listed node once, in order, and every out edge of these once, and nothing else. */
  lemma {:induction false} CallsHandleAll<V(!new), E>(g: Graph<V, E>, sorted: seq<V>)
    ensures HandledNodes(Calls(g, sorted)) == sorted && HandledEdges(Calls(g, sorted)) == OutEdges(g, sorted)
    ensures |Calls(g, sorted)| == |sorted| + |OutEdges(g, sorted)|
    decreases |sorted|
  {
    hide EdgeCalls;
    if sorted != [] {
      var front, last := sorted[..|sorted| - 1], sorted[|sorted| - 1];
      CallsHandleAll(g, front);
      var calls := Calls(g, front) + [HandleNode(last)];
      assert calls[..|calls| - 1] == Calls(g, front);
      HandledByEdgeCalls(calls, g.out(last));
    }
  }

  method TraverseNodes<V(==, !new), E>(g: Graph<V, E>, init: V) returns (nodes: seq<V>, complete: bool)
    requires Distinct(g.sources) && (g.sources == [] <==> g.nodes == {})
    ensures complete <==> forall v :: v in g.nodes ==> Reachable(g, v)
    ensures complete ==> Sorting(g, nodes)
  {
    hide Sorting, Reachable;
    var sortedNodes, front := TopologicalSort.Sort(g, init);
    complete := front == 0;
    nodes := [];
    for i := 0 to sortedNodes.Length
      invariant nodes == sortedNodes[..i]
    {
      nodes := nodes + [sortedNodes[i]];
    }
    assert sortedNodes[0..] == sortedNodes[..] == sortedNodes[..sortedNodes.Length];
  }

  /** The inner loop of TraverseNodesAndEdges. */
  method HandleEdges<V, E>(calls: seq<Call<V, E>>, edges: seq<E>) returns (r: seq<Call<V, E>>)
    ensures r == calls + EdgeCalls(edges)
  {
    r := calls;
    for m := 0 to |edges|
      invariant r == calls + EdgeCalls(edges[..m])
    {
      assert edges[..m + 1][..m] == edges[..m];
      r := r + [HandleEdge(edges[m])];
    }
    assert edges[..|edges|] == edges;
  }

  method TraverseNodesAndEdges<V(==, !new), E>(g: Graph<V, E>, init: V)
    returns (calls: seq<Call<V, E>>, ghost sorted: seq<V>, complete: bool)
    requires Distinct(g.sources) && (g.sources == [] <==> g.nodes == {})
    ensures complete <==> forall v :: v in g.nodes ==> Reachable(g, v)
    ensures calls == Calls(g, sorted) && (complete ==> Sorting(g, sorted))
    ensures HandledNodes(calls) == sorted && HandledEdges(calls) == OutEdges(g, sorted)
    ensures |calls| == |sorted| + |OutEdges(g, sorted)|
  {
    hide Sorting, Reachable, HandledNodes, HandledEdges, OutEdges;
    var sortedNodes, front := TopologicalSort.Sort(g, init);
    complete := front == 0;
    sorted := sortedNodes[..];
    assert sortedNodes[0..] == sorted;
    calls := [];
    for i := 0 to sortedNodes.Length
      invariant calls == Calls(g, sorted[..i]) && sortedNodes[..] == sorted
    {
      assert sortedNodes[i] == sorted[i];
      assert sorted[..i + 1][..i] == sorted[..i];
      calls := calls + [HandleNode(sortedNodes[i])];
      calls := HandleEdges(calls, g.out(sortedNodes[i]));
    }
    assert sorted[..|sorted|] == sorted;
    CallsHandleAll(g, sorted);
  }

  lemma CallsStep<V(!new), E>(g: Graph<V, E>, sorted: seq<V>)
    requires sorted != []
    ensures var v := sorted[|sorted| - 1];
            Calls(g, sorted) == Calls(g, sorted[..|sorted| - 1]) + [HandleNode(v)] + EdgeCalls(g.out(v))
  {
  }

  /** The calls for node i stand where the calls for the nodes before it end. */
  lemma {:induction false} CallsAt<V(!new), E>(g: Graph<V, E>, sorted: seq<V>, i: nat)
    requires i < |sorted|
    ensures var at := |Calls(g, sorted[..i])|;
            at + |g.out(sorted[i])| < |Calls(g, sorted)| && Calls(g, sorted)[at] == HandleNode(sorted[i]) &&
            forall m :: 0 <= m < |g.out(sorted[i])| ==> Calls(g, sorted)[at + 1 + m] == HandleEdge(g.out(sorted[i])[m])
    ensures |Calls(g, sorted[..i + 1])| == |Calls(g, sorted[..i])| + 1 + |g.out(sorted[i])|
    decreases |sorted|
  {
    hide Calls, EdgeCalls;
    CallsStep(g, sorted);
    var front := sorted[..|sorted| - 1];
    if i < |front| {
      CallsAt(g, front, i);
      assert front[..i] == sorted[..i] && front[..i + 1] == sorted[..i + 1];
    } else {
      assert front == sorted[..i] && sorted[..i + 1] == sorted;
    }
  }

  lemma {:induction false} CallsGrow<V(!new), E>(g: Graph<V, E>, sorted: seq<V>, i: nat, j: nat)
    requires i < j <= |sorted|
    ensures |Calls(g, sorted[..i + 1])| <= |Calls(g, sorted[..j])|
    decreases j
  {
    if i + 1 < j {
      CallsGrow(g, sorted, i, j - 1);
      CallsAt(g, sorted, j - 1);
    }
  }

  /** When edges go forward, an edge is handled after the node it leaves and before the node it leads to. */
  lemma EdgeHandledBetween<V(!new), E>(g: Graph<V, E>, sorted: seq<V>, u: V, m: nat)
    requires EdgesForward(g, sorted) && u in sorted && m < |g.out(u)| && Accepted(g, g.out(u)[m])
    requires g.leadsTo(g.out(u)[m]) in sorted
    ensures exists a, b, c :: 0 <= a < b < c < |Calls(g, sorted)| && Calls(g, sorted)[a] == HandleNode(u) &&
              Calls(g, sorted)[b] == HandleEdge(g.out(u)[m]) &&
              Calls(g, sorted)[c] == HandleNode(g.leadsTo(g.out(u)[m]))
  {
    hide Calls;
    var w := g.leadsTo(g.out(u)[m]);
    assert Edge(g, u, w);
    var i, j :| 0 <= i < j < |sorted| && sorted[i] == u && sorted[j] == w;
    CallsAt(g, sorted, i);
    CallsAt(g, sorted, j);
    CallsGrow(g, sorted, i, j);
    var a, c := |Calls(g, sorted[..i])|, |Calls(g, sorted[..j])|;
    assert Calls(g, sorted)[a + 1 + m] == HandleEdge(g.out(u)[m]);
  }

  // ----- sources in the wrong order

  /** Two sources, 1 listed before 0, and an edge from 0 to 1. */
  function LateSourceGraph(): Graph<nat, nat> {
    Graph({0, 1}, [1, 0], v => if v == 0 then [1] else [], e => true, e => e)
  }

  /** An acyclic graph that no result of topologicalSort orders: the source 0 reaches 1, which is listed before it. */
  lemma LateSourceMisordered(sorted: seq<nat>)
    requires Sorting(LateSourceGraph(), sorted)
    ensures Acyclic(LateSourceGraph()) && !EdgesForward(LateSourceGraph(), sorted)
  {
    hide Sorting, EdgesForward, Reaches, Reachable;
    var g := LateSourceGraph();
    assert g.out(0)[0] == 1;
    assert Edge(g, 0, 1);
    forall u, w | Edge(g, u, w) ensures u == 0 && w == 1 {
    }
    hide Edge;
    forall u, w | Edge(g, u, w) ensures !Reaches(g, w, u) {
      if Reaches(g, w, u) { ReachesClosed(g, w, u, {1}); }
    }
    ReachesSelf(g, 0);
    ReachesFurther(g, 0, 0, 1);
    assert !SourcesListedInOrder(g) by { assert g.sources[1] == 0 && g.sources[0] == 1; }
    hide SourcesListedInOrder, NoLateEdges;
    ListedInOrder(g);
    LinearExtensionIff(g, sorted);
  }

  /** The sort of that graph is complete and misordered. */
  method SortMisorders() returns (sorted: seq<nat>)
    ensures Sorting(LateSourceGraph(), sorted) && |sorted| == 2
    ensures Acyclic(LateSourceGraph()) && !EdgesForward(LateSourceGraph(), sorted)
  {
    hide Sorting, Acyclic, EdgesForward;
    var g := LateSourceGraph();
    var sortedNodes, front := TopologicalSort.Sort(g, 0);
    SourceReachable(g, 0);
    SourceReachable(g, 1);
    assert forall v :: v in g.nodes ==> v == g.sources[0] || v == g.sources[1];
    hide Reachable;
    sorted := sortedNodes[..];
    assert sortedNodes[0..] == sorted;
    LateSourceMisordered(sorted);
  }

  /** The source 9 is outside the graph; it has an edge to the source 1, listed before it. */
  function OutsideSourceGraph(): Graph<nat, nat> {
    Graph({1, 2}, [1, 9], v => if v == 9 then [1] else if v == 1 then [2] else [], e => true, e => e)
  }

  /** A source outside the graph may reach one listed before it: the result is ordered all the same. */
  lemma OutsideSourceHarmless(sorted: seq<nat>)
    requires Sorting(OutsideSourceGraph(), sorted)
    ensures !SourcesListedInOrder(OutsideSourceGraph()) && EdgesForward(OutsideSourceGraph(), sorted)
  {
    hide Sorting, EdgesForward, Reaches, Reachable, ReachesApart;
    var g := OutsideSourceGraph();
    assert g.out(9)[0] == 1;
    assert Edge(g, 9, 1);
    forall u, w | Edge(g, u, w) ensures (u == 9 && w == 1) || (u == 1 && w == 2) {
    }
    hide Edge;
    forall u, w | u in g.nodes && Edge(g, u, w) ensures !Reaches(g, w, u) {
      if Reaches(g, w, u) { ReachesClosed(g, w, u, {2}); }
    }
    ReachesSelf(g, 9);
    ReachesFurther(g, 9, 9, 1);
    assert !SourcesListedInOrder(g) by { assert g.sources[1] == 9 && g.sources[0] == 1; }
    LinearExtensionIff(g, sorted);
  }
}
