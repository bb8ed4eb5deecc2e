/** The graph concept of src/util/graph.h:19-34, reachability in it, and what topologicalSort promises of its output. */
module Graphs {
  import opened Sequences

  /** nodes is what hasNode accepts, and nNodes its size; sources, out, hasEdge and leadsTo are the other operations. */
  datatype Graph<!V(==), !E> = Graph(
    nodes: set<V>, sources: seq<V>, out: V -> seq<E>, hasEdge: E -> bool, leadsTo: E -> V)

  /** An edge the traversal may follow. */
  predicate Accepted<V(==), E>(g: Graph<V, E>, e: E) {
    g.hasEdge(e) && g.leadsTo(e) in g.nodes
  }

  ghost predicate Edge<V(!new), E>(g: Graph<V, E>, u: V, w: V) {
    exists m :: 0 <= m < |g.out(u)| && Accepted(g, g.out(u)[m]) && g.leadsTo(g.out(u)[m]) == w
  }

  ghost predicate Path<V(!new), E>(g: Graph<V, E>, p: seq<V>) {
    p != [] && forall i :: 0 <= i < |p| - 1 ==> Edge(g, p[i], p[i + 1])
  }

  ghost predicate Reaches<V(!new), E>(g: Graph<V, E>, u: V, w: V) {
    exists p :: Path(g, p) && p[0] == u && p[|p| - 1] == w
  }

  /** The source number q reaches w without passing a source listed before it. */
  ghost predicate ReachesApart<V(!new), E>(g: Graph<V, E>, q: nat, w: V)
    requires q < |g.sources|
  {
    exists p :: Path(g, p) && p[0] == g.sources[q] && p[|p| - 1] == w && Apart(g, q, p)
  }

  ghost predicate Apart<V(!new), E>(g: Graph<V, E>, q: nat, p: seq<V>) {
    forall i, j :: 0 <= i < |p| && 0 <= j < q && j < |g.sources| ==> p[i] != g.sources[j]
  }

  ghost predicate Reachable<V(!new), E>(g: Graph<V, E>, w: V) {
    exists q :: 0 <= q < |g.sources| && Reaches(g, g.sources[q], w)
  }

  // ----- reachability

  lemma ReachesSelf<V(!new), E>(g: Graph<V, E>, u: V)
    ensures Reaches(g, u, u)
  {
    var p := [u];
    assert Path(g, p);
  }

  lemma ReachesFurther<V(!new), E>(g: Graph<V, E>, u: V, v: V, w: V)
    requires Reaches(g, u, v) && Edge(g, v, w)
    ensures Reaches(g, u, w)
  {
    hide Edge;
    var p :| Path(g, p) && p[0] == u && p[|p| - 1] == v;
    var q := p + [w];
    assert Path(g, q);
    assert q[0] == u && q[|q| - 1] == w;
  }

  /** A property that holds of u and passes along edges holds of everything u reaches. */
  lemma {:induction false} ReachesClosed<V(!new), E>(g: Graph<V, E>, u: V, w: V, closed: set<V>)
    requires Reaches(g, u, w) && u in closed
    requires forall x, y :: x in closed && Edge(g, x, y) ==> y in closed
    ensures w in closed
  {
    hide Edge;
    var p :| Path(g, p) && p[0] == u && p[|p| - 1] == w;
    PathClosed(g, p, |p| - 1, closed);
  }

  lemma {:induction false} PathClosed<V(!new), E>(g: Graph<V, E>, p: seq<V>, i: nat, closed: set<V>)
    requires Path(g, p) && p[0] in closed && i < |p|
    requires forall x, y :: x in closed && Edge(g, x, y) ==> y in closed
    ensures p[i] in closed
    decreases i
  {
    hide Edge;
    if i > 0 { PathClosed(g, p, i - 1, closed); }
  }

  // ----- what the sort promises

  /** w is a source, and one listed later reaches u without passing a source listed before it. */
  ghost predicate LateSource<V(!new), E>(g: Graph<V, E>, w: V, u: V) {
    exists p, q :: 0 <= p < q < |g.sources| && g.sources[p] == w && ReachesApart(g, q, u)
  }

  /** Why an edge from u to w may come out backwards. */
  ghost predicate Excused<V(!new), E>(g: Graph<V, E>, u: V, w: V) {
    Reaches(g, w, u) || LateSource(g, w, u)
  }

  ghost predicate EdgesForward<V(!new), E>(g: Graph<V, E>, sorted: seq<V>) {
    forall u, w :: u in sorted && w in sorted && Edge(g, u, w) ==> Before(sorted, u, w)
  }

  ghost predicate EdgesForwardOrExcused<V(!new), E>(g: Graph<V, E>, sorted: seq<V>) {
    forall u, w :: u in sorted && w in sorted && Edge(g, u, w) ==> Before(sorted, u, w) || Excused(g, u, w)
  }

  /** What a source reaches without passing an earlier one comes behind all earlier sources. */
  ghost predicate SourcesInOrder<V(!new), E>(g: Graph<V, E>, sorted: seq<V>) {
    forall p, q, u :: 0 <= p < q < |g.sources| && g.sources[p] in sorted && u in sorted && ReachesApart(g, q, u) ==>
      Before(sorted, g.sources[p], u)
  }

  /** v has been reached by an edge from a node in front of it, or from a source outside the graph. */
  ghost predicate HasParent<V(!new), E>(g: Graph<V, E>, sorted: seq<V>, v: V) {
    exists u :: Edge(g, u, v) && (Before(sorted, u, v) || (u in g.sources && u !in g.nodes))
  }

  /** Every reachable node once, edges forward but for the excused ones, the sources in order, each with what is reached
      from it first, and every other node behind one that it was reached from. */
  ghost predicate Sorting<V(!new), E>(g: Graph<V, E>, sorted: seq<V>) {
    && Distinct(sorted)
    && (forall v :: v in sorted <==> v in g.nodes && Reachable(g, v))
    && EdgesForwardOrExcused(g, sorted)
    && SourcesInOrder(g, sorted)
    && (forall v :: v in sorted && v !in g.sources ==> HasParent(g, sorted, v))
  }

  /** No edge between reachable nodes closes a cycle. */
  ghost predicate Acyclic<V(!new), E>(g: Graph<V, E>) {
    forall u, w :: u in g.nodes && Reachable(g, u) && Edge(g, u, w) ==> !Reaches(g, w, u)
  }

  /** No source reaches one that is listed before it. */
  ghost predicate SourcesListedInOrder<V(!new), E>(g: Graph<V, E>) {
    forall p, q :: 0 <= p < q < |g.sources| ==> !Reaches(g, g.sources[q], g.sources[p])
  }

  /** No node that a source reaches without passing an earlier one has an edge to a source listed before it. */
  ghost predicate NoLateEdges<V(!new), E>(g: Graph<V, E>) {
    forall p, q, u :: 0 <= p < q < |g.sources| && u in g.nodes && ReachesApart(g, q, u) ==> !Edge(g, u, g.sources[p])
  }

  // ----- positions

  lemma BeforeOnce<V>(s: seq<V>, u: V, w: V)
    requires Distinct(s) && Before(s, u, w)
    ensures !Before(s, w, u) && u != w
  {
    var i, j :| 0 <= i < j < |s| && s[i] == u && s[j] == w;
  }

  lemma BeforeThrough<V>(s: seq<V>, u: V, v: V, w: V)
    requires Distinct(s) && Before(s, u, v) && Before(s, v, w)
    ensures Before(s, u, w)
  {
    var i, j :| 0 <= i < j < |s| && s[i] == u && s[j] == v;
    var k, l :| 0 <= k < l < |s| && s[k] == v && s[l] == w;
    assert j == k;
  }

  lemma EdgeTargetInNodes<V(!new), E>(g: Graph<V, E>, u: V, w: V)
    requires Edge(g, u, w)
    ensures w in g.nodes
  {
  }

  lemma ReachableFurther<V(!new), E>(g: Graph<V, E>, u: V, w: V)
    requires Reachable(g, u) && Edge(g, u, w)
    ensures Reachable(g, w)
  {
    hide Edge, Reaches;
    var q :| 0 <= q < |g.sources| && Reaches(g, g.sources[q], u);
    ReachesFurther(g, g.sources[q], u, w);
  }

  /** If all edges go forward, so do all paths that start in the output. */
  lemma {:induction false} PathsForward<V(!new), E>(g: Graph<V, E>, sorted: seq<V>, p: seq<V>, i: nat)
    requires Sorting(g, sorted) && EdgesForward(g, sorted)
    requires Path(g, p) && p[0] in sorted && i < |p|
    ensures p[i] in sorted && (i == 0 || Before(sorted, p[0], p[i]))
    decreases i
  {
    hide Edge, Before, Distinct, Reachable, EdgesForwardOrExcused, SourcesInOrder;
    if i > 0 {
      PathsForward(g, sorted, p, i - 1);
      ReachableFurther(g, p[i - 1], p[i]);
      EdgeTargetInNodes(g, p[i - 1], p[i]);
      if i > 1 { BeforeThrough(sorted, p[0], p[i - 1], p[i]); }
    }
  }

  lemma ReachesForward<V(!new), E>(g: Graph<V, E>, sorted: seq<V>, u: V, w: V)
    requires Sorting(g, sorted) && EdgesForward(g, sorted) && u in sorted && Reaches(g, u, w)
    ensures u == w || Before(sorted, u, w)
  {
    hide Edge, Before, Sorting, EdgesForward;
    var p :| Path(g, p) && p[0] == u && p[|p| - 1] == w;
    PathsForward(g, sorted, p, |p| - 1);
  }

  lemma SourceReachable<V(!new), E>(g: Graph<V, E>, q: nat)
    requires q < |g.sources|
    ensures Reachable(g, g.sources[q])
  {
    ReachesSelf(g, g.sources[q]);
  }

  lemma ApartReaches<V(!new), E>(g: Graph<V, E>, q: nat, u: V)
    requires q < |g.sources| && ReachesApart(g, q, u)
    ensures Reaches(g, g.sources[q], u) && Reachable(g, u)
  {
    var p :| Path(g, p) && p[0] == g.sources[q] && p[|p| - 1] == u && Apart(g, q, p);
    assert Reaches(g, g.sources[q], u);
  }

  /** Only feedback edges come out backwards, as long as there are no late edges. */
  lemma OnlyFeedbackBackwards<V(!new), E>(g: Graph<V, E>, sorted: seq<V>, u: V, w: V)
    requires Sorting(g, sorted) && NoLateEdges(g)
    requires u in sorted && w in sorted && Edge(g, u, w)
    ensures Before(sorted, u, w) || Reaches(g, w, u)
  {
    hide Edge, Reaches, Before, ReachesApart;
  }

  /** On any graph the output is a linear extension exactly when the reachable part is acyclic and there are no late
      edges. Sources may be listed in any order, have incoming edges and be outside the graph. */
  lemma LinearExtensionIff<V(!new), E>(g: Graph<V, E>, sorted: seq<V>)
    requires Sorting(g, sorted)
    ensures EdgesForward(g, sorted) <==> Acyclic(g) && NoLateEdges(g)
  {
    hide Edge, Reaches, Before, Reachable, ReachesApart;
    if EdgesForward(g, sorted) {
      ForwardIsAcyclic(g, sorted);
      ForwardHasNoLateEdges(g, sorted);
    }
    if Acyclic(g) && NoLateEdges(g) {
      forall u, w | u in sorted && w in sorted && Edge(g, u, w) ensures Before(sorted, u, w) {
        OnlyFeedbackBackwards(g, sorted, u, w);
      }
    }
  }

  lemma ForwardIsAcyclic<V(!new), E>(g: Graph<V, E>, sorted: seq<V>)
    requires Sorting(g, sorted) && EdgesForward(g, sorted)
    ensures Acyclic(g)
  {
    hide Edge, Reaches, Before, Reachable, Distinct;
    forall u, w | u in g.nodes && Reachable(g, u) && Edge(g, u, w) ensures !Reaches(g, w, u) {
      ReachableFurther(g, u, w);
      EdgeTargetInNodes(g, u, w);
      assert Before(sorted, u, w);
      BeforeOnce(sorted, u, w);
      if Reaches(g, w, u) { ReachesForward(g, sorted, w, u); }
    }
  }

  lemma ForwardHasNoLateEdges<V(!new), E>(g: Graph<V, E>, sorted: seq<V>)
    requires Sorting(g, sorted) && EdgesForward(g, sorted)
    ensures NoLateEdges(g)
  {
    hide Edge, Reaches, Before, Reachable, ReachesApart, Distinct;
    forall p, q, u | 0 <= p < q < |g.sources| && u in g.nodes && ReachesApart(g, q, u)
      ensures !Edge(g, u, g.sources[p])
    {
      if Edge(g, u, g.sources[p]) {
        ApartReaches(g, q, u);
        SourceReachable(g, p);
        EdgeTargetInNodes(g, u, g.sources[p]);
        assert Before(sorted, g.sources[p], u);
        BeforeOnce(sorted, g.sources[p], u);
      }
    }
  }

  /** An earlier source that a later one reaches is entered by an edge from a node reached without passing one. */
  lemma {:induction false} FirstEarlierSource<V(!new), E>(g: Graph<V, E>, q: nat, p: seq<V>)
    requires q < |g.sources| && Path(g, p) && p[0] == g.sources[q] && !Apart(g, q, p) && Distinct(g.sources)
    ensures exists i, u :: 0 <= i < q && ReachesApart(g, q, u) && Edge(g, u, g.sources[i]) &&
                           (u in g.nodes || u == g.sources[q])
    decreases |p|
  {
    hide Edge;
    var t := |p| - 1;
    var front := p[..t];
    if front != [] && !Apart(g, q, front) {
      FirstEarlierSource(g, q, front);
    } else {
      var k, i :| 0 <= k < |p| && 0 <= i < q && i < |g.sources| && p[k] == g.sources[i];
      assert k == t && t > 0;
      assert Edge(g, p[t - 1], p[t - 1 + 1]);
      assert front[|front| - 1] == p[t - 1] && Path(g, front);
      assert ReachesApart(g, q, p[t - 1]);
      if t > 1 {
        assert Edge(g, p[t - 2], p[t - 2 + 1]);
        EdgeTargetInNodes(g, p[t - 2], p[t - 1]);
      }
    }
  }

  /** Sources that do not reach earlier ones have no late edges; for sources in the graph this is the same. */
  lemma ListedInOrder<V(!new), E>(g: Graph<V, E>)
    ensures SourcesListedInOrder(g) ==> NoLateEdges(g)
    ensures Distinct(g.sources) && (forall q :: 0 <= q < |g.sources| ==> g.sources[q] in g.nodes) ==>
      (SourcesListedInOrder(g) <==> NoLateEdges(g))
  {
    hide Edge, Reaches, ReachesApart;
    if SourcesListedInOrder(g) {
      forall p, q, u | 0 <= p < q < |g.sources| && ReachesApart(g, q, u) ensures !Edge(g, u, g.sources[p]) {
        ApartReaches(g, q, u);
        if Edge(g, u, g.sources[p]) { ReachesFurther(g, g.sources[q], u, g.sources[p]); }
      }
    }
    if Distinct(g.sources) && (forall q :: 0 <= q < |g.sources| ==> g.sources[q] in g.nodes) && NoLateEdges(g) {
      forall p, q | 0 <= p < q < |g.sources| ensures !Reaches(g, g.sources[q], g.sources[p]) {
        if Reaches(g, g.sources[q], g.sources[p]) { LateEdge(g, p, q); }
      }
    }
  }

  lemma LateEdge<V(!new), E>(g: Graph<V, E>, p: nat, q: nat)
    requires p < q < |g.sources| && Reaches(g, g.sources[q], g.sources[p]) && Distinct(g.sources)
    requires g.sources[q] in g.nodes
    ensures !NoLateEdges(g)
  {
    hide Edge, ReachesApart;
    var path :| Path(g, path) && path[0] == g.sources[q] && path[|path| - 1] == g.sources[p];
    assert !Apart(g, q, path);
    FirstEarlierSource(g, q, path);
  }

  /** An acyclic graph comes out sorted if no source reaches one listed before it, whatever the sources are. */
  lemma ListedInOrderSorts<V(!new), E>(g: Graph<V, E>, sorted: seq<V>)
    requires Sorting(g, sorted) && Acyclic(g) && SourcesListedInOrder(g)
    ensures EdgesForward(g, sorted)
  {
    hide Sorting, Acyclic, SourcesListedInOrder, NoLateEdges, EdgesForward;
    ListedInOrder(g);
    LinearExtensionIff(g, sorted);
  }

  lemma LastEdge<V(!new), E>(g: Graph<V, E>, p: seq<V>)
    requires Path(g, p)
    ensures |p| == 1 || Edge(g, p[|p| - 2], p[|p| - 1])
  {
    if |p| > 1 { assert Edge(g, p[|p| - 2], p[|p| - 2 + 1]); }
  }

  /** Sources without incoming edges are always listed in order, so an acyclic graph with such sources is sorted. */
  lemma NoIncomingEdges<V(!new), E>(g: Graph<V, E>)
    requires Distinct(g.sources)
    requires forall u, q :: 0 <= q < |g.sources| ==> !Edge(g, u, g.sources[q])
    ensures SourcesListedInOrder(g)
  {
    hide Edge;
    forall p, q | 0 <= p < q < |g.sources| ensures !Reaches(g, g.sources[q], g.sources[p]) {
      if Reaches(g, g.sources[q], g.sources[p]) {
        var path :| Path(g, path) && path[0] == g.sources[q] && path[|path| - 1] == g.sources[p];
        LastEdge(g, path);
      }
    }
  }
}
