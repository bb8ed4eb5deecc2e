/** topologicalSort of src/util/graph.h:36-98: an explicit-stack depth-first search that starts with all sources on the
    stack and fills the result from the back. */
module TopologicalSort {
  import opened Sequences
  import opened Graphs

  /** The edges of v before cursor c lead nowhere new. */
  ghost predicate Explored<V(!new), E>(g: Graph<V, E>, v: V, c: nat, visited: set<V>) {
    c <= |g.out(v)| &&
    forall m :: 0 <= m < c && Accepted(g, g.out(v)[m]) ==> g.leadsTo(g.out(v)[m]) in visited
  }

  ghost predicate OnStack<V>(stack: seq<(V, nat)>, v: V) {
    exists i :: 0 <= i < |stack| && stack[i].0 == v
  }

  /** The stack: the first n sources, the last of them starting a path along edges to the top. */
  ghost predicate Stacked<V(!new), E>(g: Graph<V, E>, stack: seq<(V, nat)>, n: nat) {
    && n <= |stack| && n <= |g.sources| && (n == 0 <==> stack == [])
    && (forall i :: 0 <= i < n ==> stack[i].0 == g.sources[i])
    && (forall i :: 0 <= n - 1 <= i < |stack| - 1 ==> Edge(g, stack[i].0, stack[i + 1].0))
    && (forall i, j :: 0 <= i < j < |stack| ==> stack[i].0 != stack[j].0)
  }

  /** What has been visited is on the stack or finished, never both; sources not on the stack are finished, with all
      they reach without passing an earlier source; and whatever has been visited is reachable. */
  ghost predicate Accounted<V(!new), E>(
    g: Graph<V, E>, stack: seq<(V, nat)>, n: nat, visited: set<V>, finished: set<V>)
  {
    && (forall v :: v in visited <==> OnStack(stack, v) || v in finished)
    && (forall v :: v in finished ==> !OnStack(stack, v))
    && (forall q :: n <= q < |g.sources| ==> g.sources[q] in finished)
    && (forall q, u :: n <= q < |g.sources| && ReachesApart(g, q, u) ==> u in finished)
    && (forall v :: v in visited ==> Reachable(g, v))
  }

  ghost predicate AllExplored<V(!new), E>(
    g: Graph<V, E>, stack: seq<(V, nat)>, visited: set<V>, finished: set<V>)
  {
    && (forall i :: 0 <= i < |stack| ==> Explored(g, stack[i].0, stack[i].1, visited))
    && (forall u :: u in finished ==> Explored(g, u, |g.out(u)|, visited))
  }

  /** The result so far: the finished nodes of the graph, latest first. Edges from finished nodes back to the stack are
      excused. */
  ghost predicate Arranged<V(!new), E>(g: Graph<V, E>, stack: seq<(V, nat)>, finished: set<V>, done: seq<V>) {
    && Distinct(done)
    && (forall v :: v in done <==> v in finished && v in g.nodes)
    && (forall u, w :: u in finished && Edge(g, u, w) && OnStack(stack, w) ==> Excused(g, u, w))
    && EdgesForwardOrExcused(g, done)
    && SourcesInOrder(g, done)
    && (forall v :: v in finished && v !in g.sources ==>
          HasParent(g, done, v) || exists u :: Edge(g, u, v) && OnStack(stack, u))
  }

  ghost predicate Searching<V(!new), E>(
    g: Graph<V, E>, stack: seq<(V, nat)>, n: nat, visited: set<V>, finished: set<V>, done: seq<V>)
  {
    Stacked(g, stack, n) && Accounted(g, stack, n, visited, finished) && AllExplored(g, stack, visited, finished) &&
    Arranged(g, stack, finished, done)
  }

  // ----- pushing a successor

  function Pushed<V>(stack: seq<(V, nat)>, c: nat, w: V): (r: seq<(V, nat)>)
    requires stack != []
    ensures |r| == |stack| + 1 && r[|stack|] == (w, 0) && r[|stack| - 1] == (stack[|stack| - 1].0, c)
    ensures forall i :: 0 <= i < |stack| - 1 ==> r[i] == stack[i]
  {
    stack[..|stack| - 1] + [(stack[|stack| - 1].0, c), (w, 0)]
  }

  lemma PushedOnStack<V(!new)>(stack: seq<(V, nat)>, c: nat, w: V)
    requires stack != []
    ensures forall v :: OnStack(Pushed(stack, c, w), v) <==> OnStack(stack, v) || v == w
  {
    var longer := Pushed(stack, c, w);
    forall v ensures OnStack(longer, v) <==> OnStack(stack, v) || v == w {
      if i :| 0 <= i < |stack| && stack[i].0 == v { assert longer[i].0 == v; }
      if v == w { assert longer[|stack|].0 == w; }
      if j :| 0 <= j < |longer| && longer[j].0 == v { assert j == |stack| || stack[j].0 == v; }
    }
  }

  /** The top moves its cursor to an edge that leads to an unvisited node, which becomes the new top. */
  lemma PushKeepsSearching<V(!new), E>(
    g: Graph<V, E>, stack: seq<(V, nat)>, n: nat, visited: set<V>, finished: set<V>, done: seq<V>, c: nat, w: V)
    requires Searching(g, stack, n, visited, finished, done) && stack != []
    requires Explored(g, stack[|stack| - 1].0, c, visited)
    requires Edge(g, stack[|stack| - 1].0, w) && w !in visited
    ensures Searching(g, Pushed(stack, c, w), n, visited + {w}, finished, done)
  {
    hide Edge, Reachable, Accepted, Arranged, Explored, Pushed;
    var top := stack[|stack| - 1].0;
    PushedOnStack(stack, c, w);
    assert OnStack(stack, top);
    ReachableFurther(g, top, w);
    forall u | u in finished ensures !Edge(g, u, w) {
      if Edge(g, u, w) { ExploredEdge(g, u, w, visited); }
    }
    PushStacked(g, stack, n, c, w);
    PushExplored(g, stack, visited, finished, c, w);
    PushArranged(g, stack, finished, done, c, w);
  }

  lemma ExploredEdge<V(!new), E>(g: Graph<V, E>, u: V, w: V, visited: set<V>)
    requires Explored(g, u, |g.out(u)|, visited) && Edge(g, u, w)
    ensures w in visited
  {
  }

  lemma PushStacked<V(!new), E>(g: Graph<V, E>, stack: seq<(V, nat)>, n: nat, c: nat, w: V)
    requires Stacked(g, stack, n) && stack != [] && Edge(g, stack[|stack| - 1].0, w) && !OnStack(stack, w)
    ensures Stacked(g, Pushed(stack, c, w), n)
  {
    hide Edge;
    assert forall i :: 0 <= i < |stack| ==> stack[i].0 != w;
  }

  lemma PushExplored<V(!new), E>(
    g: Graph<V, E>, stack: seq<(V, nat)>, visited: set<V>, finished: set<V>, c: nat, w: V)
    requires AllExplored(g, stack, visited, finished) && stack != []
    requires Explored(g, stack[|stack| - 1].0, c, visited)
    ensures AllExplored(g, Pushed(stack, c, w), visited + {w}, finished)
  {
    hide Accepted;
    forall v, k: nat | Explored(g, v, k, visited) ensures Explored(g, v, k, visited + {w}) {
    }
    assert Explored(g, w, 0, visited + {w});
    hide Explored;
  }

  lemma PushArranged<V(!new), E>(
    g: Graph<V, E>, stack: seq<(V, nat)>, finished: set<V>, done: seq<V>, c: nat, w: V)
    requires Arranged(g, stack, finished, done) && stack != []
    requires forall u :: u in finished ==> !Edge(g, u, w)
    ensures Arranged(g, Pushed(stack, c, w), finished, done)
  {
    hide Edge, Excused, EdgesForwardOrExcused, SourcesInOrder, Distinct;
    PushedOnStack(stack, c, w);
    hide OnStack;
  }

  // ----- finishing the top

  /** The nodes on the stack from i to j, as a path. */
  function StackPath<V>(stack: seq<(V, nat)>, i: nat, j: nat): (p: seq<V>)
    requires i <= j < |stack|
    ensures |p| == j - i + 1 && forall k :: 0 <= k < |p| ==> p[k] == stack[i + k].0
  {
    if i == j then [stack[i].0] else StackPath(stack, i, j - 1) + [stack[j].0]
  }

  lemma StackPathIsPath<V(!new), E>(g: Graph<V, E>, stack: seq<(V, nat)>, n: nat, i: nat, j: nat)
    requires Stacked(g, stack, n) && n >= 1 && n - 1 <= i <= j < |stack|
    ensures Path(g, StackPath(stack, i, j)) && Apart(g, n - 1, StackPath(stack, i, j))
  {
    hide Edge;
    var p := StackPath(stack, i, j);
    forall k | 0 <= k < |p| - 1 ensures Edge(g, p[k], p[k + 1]) {
      assert Edge(g, stack[i + k].0, stack[i + k + 1].0);
    }
    forall k, m | 0 <= k < |p| && 0 <= m < n - 1 ensures p[k] != g.sources[m] {
      assert stack[m].0 == g.sources[m] && stack[i + k].0 != stack[m].0;
    }
  }

  /** An edge from the top back to the stack closes a cycle or goes to a source that is still waiting. */
  lemma BackEdgeExcused<V(!new), E>(g: Graph<V, E>, stack: seq<(V, nat)>, n: nat, w: V)
    requires Stacked(g, stack, n) && stack != [] && OnStack(stack, w)
    ensures Excused(g, stack[|stack| - 1].0, w)
  {
    hide Edge, Path, Apart;
    var i :| 0 <= i < |stack| && stack[i].0 == w;
    var t := |stack| - 1;
    if i >= n - 1 {
      StackPathIsPath(g, stack, n, i, t);
    } else {
      StackPathIsPath(g, stack, n, n - 1, t);
      assert g.sources[i] == w && g.sources[n - 1] == stack[n - 1].0;
      assert ReachesApart(g, n - 1, stack[t].0);
    }
  }

  lemma PoppedOnStack<V(!new)>(stack: seq<(V, nat)>)
    requires stack != [] && forall i, j :: 0 <= i < j < |stack| ==> stack[i].0 != stack[j].0
    ensures forall v :: OnStack(stack[..|stack| - 1], v) <==> OnStack(stack, v) && v != stack[|stack| - 1].0
  {
    var shorter := stack[..|stack| - 1];
    forall v ensures OnStack(shorter, v) <==> OnStack(stack, v) && v != stack[|stack| - 1].0 {
      if i :| 0 <= i < |stack| && stack[i].0 == v && v != stack[|stack| - 1].0 { assert shorter[i].0 == v; }
      if j :| 0 <= j < |shorter| && shorter[j].0 == v { assert stack[j].0 == v; }
    }
  }

  function Popped<V>(stack: seq<(V, nat)>): (r: seq<(V, nat)>)
    requires stack != []
    ensures |r| == |stack| - 1 && forall i :: 0 <= i < |r| ==> r[i] == stack[i]
  {
    stack[..|stack| - 1]
  }

  function Prepended<V(==)>(nodes: set<V>, v: V, done: seq<V>): seq<V> {
    if v in nodes then [v] + done else done
  }

  /** The top has no more edges to follow: it leaves the stack and, if it is a node, enters the result. */
  lemma PopKeepsSearching<V(!new), E>(
    g: Graph<V, E>, stack: seq<(V, nat)>, n: nat, visited: set<V>, finished: set<V>, done: seq<V>)
    requires Searching(g, stack, n, visited, finished, done) && stack != [] && Distinct(g.sources)
    requires Explored(g, stack[|stack| - 1].0, |g.out(stack[|stack| - 1].0)|, visited)
    ensures var top := stack[|stack| - 1].0;
            Searching(g, Popped(stack), if |stack| == n then n - 1 else n, visited, finished + {top},
                      Prepended(g.nodes, top, done))
  {
    hide Edge, Reachable, Explored, Arranged, Popped, Prepended;
    var top := stack[|stack| - 1].0;
    PoppedOnStack(stack);
    assert OnStack(stack, top);
    PopArranged(g, stack, n, visited, finished, done);
    if |stack| == n {
      forall u | ReachesApart(g, n - 1, u) ensures u in finished + {top} {
        RootFinished(g, stack, n, visited, finished, u);
      }
    }
    hide OnStack, ReachesApart;
    assert Accounted(g, Popped(stack), if |stack| == n then n - 1 else n, visited, finished + {top});
  }

  /** When a source leaves the stack, all it reaches without passing an earlier one is finished. */
  lemma RootFinished<V(!new), E>(
    g: Graph<V, E>, stack: seq<(V, nat)>, n: nat, visited: set<V>, finished: set<V>, u: V)
    requires Stacked(g, stack, n) && Accounted(g, stack, n, visited, finished)
    requires AllExplored(g, stack, visited, finished) && |stack| == n > 0
    requires Explored(g, stack[n - 1].0, |g.out(stack[n - 1].0)|, visited) && ReachesApart(g, n - 1, u)
    ensures u in finished + {stack[n - 1].0}
  {
    hide Explored, Edge, Reachable;
    var p :| Path(g, p) && p[0] == g.sources[n - 1] && p[|p| - 1] == u && Apart(g, n - 1, p);
    PathFinished(g, stack, n, visited, finished, p, |p| - 1);
  }

  lemma {:induction false} PathFinished<V(!new), E>(
    g: Graph<V, E>, stack: seq<(V, nat)>, n: nat, visited: set<V>, finished: set<V>, p: seq<V>, i: nat)
    requires Stacked(g, stack, n) && Accounted(g, stack, n, visited, finished)
    requires AllExplored(g, stack, visited, finished) && |stack| == n > 0
    requires Explored(g, stack[n - 1].0, |g.out(stack[n - 1].0)|, visited)
    requires Path(g, p) && p[0] == g.sources[n - 1] && Apart(g, n - 1, p) && i < |p|
    ensures p[i] in finished + {stack[n - 1].0}
    decreases i
  {
    hide Explored, Edge, Reachable, ReachesApart;
    if i > 0 {
      PathFinished(g, stack, n, visited, finished, p, i - 1);
      assert Edge(g, p[i - 1], p[i - 1 + 1]);
      ExploredEdge(g, p[i - 1], p[i], visited);
    }
  }

  lemma PopArranged<V(!new), E>(
    g: Graph<V, E>, stack: seq<(V, nat)>, n: nat, visited: set<V>, finished: set<V>, done: seq<V>)
    requires Stacked(g, stack, n) && Accounted(g, stack, n, visited, finished) && Arranged(g, stack, finished, done)
    requires stack != [] && Distinct(g.sources)
    ensures var top := stack[|stack| - 1].0;
            Arranged(g, Popped(stack), finished + {top}, Prepended(g.nodes, top, done))
  {
    hide Edge, Excused, Reachable, EdgesForwardOrExcused, SourcesInOrder;
    var top := stack[|stack| - 1].0;
    PoppedOnStack(stack);
    assert OnStack(stack, top);
    forall w | OnStack(stack, w) ensures Excused(g, top, w) {
      BackEdgeExcused(g, stack, n, w);
    }
    if top in g.nodes {
      assert top !in done;
      forall u | u in done && Edge(g, u, top) ensures Excused(g, u, top) {
      }
      PrependedEdges(g, top, done);
      forall p, q | 0 <= p < q < |g.sources| && g.sources[p] in done ensures !ReachesApart(g, q, top) {
        WaitingUnfinished(g, stack, n, visited, finished, p);
      }
      PrependedSources(g, top, done);
    }
    forall v | v in finished + {top} && v !in g.sources
      ensures HasParent(g, Prepended(g.nodes, top, done), v) || exists u :: Edge(g, u, v) && OnStack(Popped(stack), u)
    {
      PopParent(g, stack, n, finished, done, v);
    }
    hide OnStack, HasParent;
  }

  /** The top was reached from the node below it, unless it is a source; what was reached from the top comes behind it,
      unless it is a source outside the graph. */
  lemma PopParent<V(!new), E>(
    g: Graph<V, E>, stack: seq<(V, nat)>, n: nat, finished: set<V>, done: seq<V>, v: V)
    requires Stacked(g, stack, n) && Arranged(g, stack, finished, done) && stack != []
    requires v in finished + {stack[|stack| - 1].0} && v !in g.sources
    ensures HasParent(g, Prepended(g.nodes, stack[|stack| - 1].0, done), v) ||
            exists u :: Edge(g, u, v) && OnStack(Popped(stack), u)
  {
    hide Edge, Excused, EdgesForwardOrExcused, SourcesInOrder, Distinct;
    var t := |stack| - 1;
    var top := stack[t].0;
    PoppedOnStack(stack);
    TopParent(g, stack, n);
    BeforePrepended(top, done);
    hide Before, Stacked;
    if v !in finished {
      assert v == top;
    } else if HasParent(g, done, v) {
      var u :| Edge(g, u, v) && (Before(done, u, v) || (u in g.sources && u !in g.nodes));
      assert HasParent(g, Prepended(g.nodes, top, done), v);
    } else {
      var u :| Edge(g, u, v) && OnStack(stack, u);
      EdgeTargetInNodes(g, u, v);
      if u == top { assert HasParent(g, Prepended(g.nodes, top, done), v); }
    }
  }

  lemma TopParent<V(!new), E>(g: Graph<V, E>, stack: seq<(V, nat)>, n: nat)
    requires Stacked(g, stack, n) && stack != []
    ensures var top := stack[|stack| - 1].0;
            top in g.sources || (top in g.nodes && exists u :: Edge(g, u, top) && OnStack(Popped(stack), u))
  {
    hide Edge;
    var t := |stack| - 1;
    if t >= n {
      assert Edge(g, stack[t - 1].0, stack[t - 1 + 1].0);
      EdgeTargetInNodes(g, stack[t - 1].0, stack[t].0);
      assert Popped(stack)[t - 1].0 == stack[t - 1].0;
      assert OnStack(Popped(stack), stack[t - 1].0);
    }
  }

  /** The first n sources are on the stack, so they are not finished. */
  lemma WaitingUnfinished<V(!new), E>(
    g: Graph<V, E>, stack: seq<(V, nat)>, n: nat, visited: set<V>, finished: set<V>, p: nat)
    requires Stacked(g, stack, n) && Accounted(g, stack, n, visited, finished)
    ensures p < n ==> g.sources[p] !in finished
  {
    hide Edge, Reachable, ReachesApart;
    if p < n { assert stack[p].0 == g.sources[p]; }
  }

  lemma BeforePrepended<V(!new)>(v: V, s: seq<V>)
    ensures forall w :: w in s ==> Before([v] + s, v, w)
    ensures forall u, w :: Before(s, u, w) ==> Before([v] + s, u, w)
  {
    var longer := [v] + s;
    forall w | w in s ensures Before(longer, v, w) {
      var j :| 0 <= j < |s| && s[j] == w;
      assert longer[0] == v && longer[j + 1] == w;
    }
    forall u, w | Before(s, u, w) ensures Before(longer, u, w) {
      var i, j :| 0 <= i < j < |s| && s[i] == u && s[j] == w;
      assert longer[i + 1] == u && longer[j + 1] == w;
    }
  }

  lemma PrependedEdges<V(!new), E>(g: Graph<V, E>, v: V, done: seq<V>)
    requires EdgesForwardOrExcused(g, done)
    requires forall u :: u in done && Edge(g, u, v) ==> Excused(g, u, v)
    ensures EdgesForwardOrExcused(g, [v] + done)
  {
    hide Edge, Reaches, Before, LateSource;
    BeforePrepended(v, done);
    ReachesSelf(g, v);
  }

  lemma PrependedSources<V(!new), E>(g: Graph<V, E>, v: V, done: seq<V>)
    requires SourcesInOrder(g, done) && Distinct(g.sources)
    requires forall p, q :: 0 <= p < q < |g.sources| && g.sources[p] in done ==> !ReachesApart(g, q, v)
    ensures SourcesInOrder(g, [v] + done)
  {
    hide Before, ReachesApart;
    BeforePrepended(v, done);
    forall p, q, u | 0 <= p < q < |g.sources| && g.sources[p] in [v] + done && u in [v] + done && ReachesApart(g, q, u)
      ensures Before([v] + done, g.sources[p], u)
    {
      if g.sources[p] == v && u == v { SourceNotApart(g, p, q); }
    }
  }

  lemma SourceNotApart<V(!new), E>(g: Graph<V, E>, p: nat, q: nat)
    requires p < q < |g.sources|
    ensures !ReachesApart(g, q, g.sources[p])
  {
    hide Edge;
  }

  // ----- start and end

  lemma SearchStart<V(!new), E>(g: Graph<V, E>, stack: seq<(V, nat)>, visited: set<V>)
    requires Distinct(g.sources) && |stack| == |g.sources|
    requires forall i :: 0 <= i < |stack| ==> stack[i] == (g.sources[i], 0)
    requires forall v :: v in visited <==> v in g.sources
    ensures Searching(g, stack, |stack|, visited, {}, [])
  {
    hide Edge, Reaches, Accepted, Reachable;
    forall v ensures v in visited <==> OnStack(stack, v) {
      if i :| 0 <= i < |g.sources| && g.sources[i] == v { assert stack[i].0 == v; }
    }
    forall v | v in visited ensures Reachable(g, v) {
      var q :| 0 <= q < |g.sources| && g.sources[q] == v;
      SourceReachable(g, q);
    }
  }

  lemma SearchEnd<V(!new), E>(g: Graph<V, E>, visited: set<V>, finished: set<V>, done: seq<V>)
    requires Searching(g, [], 0, visited, finished, done)
    ensures Sorting(g, done)
  {
    hide Edge, Reaches, Explored, EdgesForwardOrExcused, SourcesInOrder, Distinct, Excused;
    assert forall v: V :: !OnStack<V>([], v);
    forall x, y | x in finished && Edge(g, x, y) ensures y in finished {
      ExploredEdge(g, x, y, visited);
    }
    forall v | Reachable(g, v) ensures v in finished {
      var q :| 0 <= q < |g.sources| && Reaches(g, g.sources[q], v);
      ReachesClosed(g, g.sources[q], v, finished);
    }
  }

  lemma {:induction false} DistinctWithin<V(!new)>(s: seq<V>, nodes: set<V>)
    requires Distinct(s) && forall v :: v in s ==> v in nodes
    ensures |s| <= |nodes|
    ensures |s| == |nodes| <==> forall v :: v in nodes ==> v in s
    decreases |s|
  {
    if s != [] {
      var last := s[|s| - 1];
      DistinctWithin(s[..|s| - 1], nodes - {last});
      assert forall v :: v in s <==> v in s[..|s| - 1] || v == last;
    } else if |nodes| == 0 {
    } else {
      var v :| v in nodes;
      assert v !in s;
    }
  }

  /** The scan of the top's edges from its cursor on, for one that leads to an unvisited node. */
  method FindUnvisited<V(==, !new), E>(g: Graph<V, E>, v: V, cursor: nat, visited: set<V>)
    returns (i: nat, hasMoved: bool)
    requires Explored(g, v, cursor, visited)
    ensures Explored(g, v, i, visited) && cursor <= i
    ensures hasMoved ==> i < |g.out(v)| && Accepted(g, g.out(v)[i]) && g.leadsTo(g.out(v)[i]) !in visited
    ensures !hasMoved ==> i == |g.out(v)|
  {
    i, hasMoved := cursor, false;
    var out := g.out(v);
    while i != |out|
      invariant cursor <= i <= |out| && Explored(g, v, i, visited)
    {
      if g.hasEdge(out[i]) {
        var n := g.leadsTo(out[i]);
        if n in g.nodes && n !in visited {
          hasMoved := true;
          return;
        }
      }
      i := i + 1;
    }
  }

  /** The sorted nodes from index front on, and how many places at the front were left unused. The final assertion of
      the source is front == 0. */
  method Sort<V(==, !new), E>(g: Graph<V, E>, init: V) returns (sortedNodes: array<V>, front: nat)
    requires Distinct(g.sources) && (g.sources == [] <==> g.nodes == {})
    ensures front <= sortedNodes.Length == |g.nodes| && Sorting(g, sortedNodes[front..])
    ensures front == 0 <==> forall v :: v in g.nodes ==> Reachable(g, v)
    ensures forall i :: 0 <= i < front ==> sortedNodes[i] == init
  {
    hide Searching, Sorting, Reachable, Explored;
    sortedNodes := new V[|g.nodes|](_ => init);
    front := |g.nodes|;
    var searchStack: seq<(V, nat)>, visitedNodes: set<V> := PushSources(g);
    ghost var n: nat, finished: set<V>, done: seq<V> := |searchStack|, {}, [];
    SearchStart(g, searchStack, visitedNodes);
    while searchStack != []
      invariant Searching(g, searchStack, n, visitedNodes, finished, done)
      invariant front <= |g.nodes| && sortedNodes[front..] == done
      invariant forall i :: 0 <= i < front ==> sortedNodes[i] == init
      decreases g.nodes - visitedNodes, |searchStack|
    {
      var top := |searchStack| - 1;
      var v := searchStack[top].0;
      TopExplored(g, searchStack, n, visitedNodes, finished, done);
      var i, hasMoved := FindUnvisited(g, v, searchStack[top].1, visitedNodes);
      if hasMoved {
        var next := g.leadsTo(g.out(v)[i]);
        assert Edge(g, v, next);
        PushKeepsSearching(g, searchStack, n, visitedNodes, finished, done, i, next);
        searchStack := Pushed(searchStack, i, next);
        visitedNodes := visitedNodes + {next};
      } else {
        PopKeepsSearching(g, searchStack, n, visitedNodes, finished, done);
        n, finished := if |searchStack| == n then n - 1 else n, finished + {v};
        done := Prepended(g.nodes, v, done);
        searchStack := Popped(searchStack);
        DoneFits(g, searchStack, n, visitedNodes, finished, done);
        if v in g.nodes {
          front := front - 1;
          sortedNodes[front] := v;
        }
      }
    }
    StackEmpty(g, n, visitedNodes, finished, done);
    SearchEnd(g, visitedNodes, finished, done);
    CompleteIff(g, done);
  }

  lemma TopExplored<V(!new), E>(
    g: Graph<V, E>, stack: seq<(V, nat)>, n: nat, visited: set<V>, finished: set<V>, done: seq<V>)
    requires Searching(g, stack, n, visited, finished, done) && stack != []
    ensures Explored(g, stack[|stack| - 1].0, stack[|stack| - 1].1, visited)
  {
  }

  lemma DoneFits<V(!new), E>(
    g: Graph<V, E>, stack: seq<(V, nat)>, n: nat, visited: set<V>, finished: set<V>, done: seq<V>)
    requires Searching(g, stack, n, visited, finished, done)
    ensures |done| <= |g.nodes|
  {
    DistinctWithin(done, g.nodes);
  }

  lemma StackEmpty<V(!new), E>(g: Graph<V, E>, n: nat, visited: set<V>, finished: set<V>, done: seq<V>)
    requires Searching(g, [], n, visited, finished, done)
    ensures n == 0
  {
  }

  lemma CompleteIff<V(!new), E>(g: Graph<V, E>, sorted: seq<V>)
    requires Sorting(g, sorted)
    ensures |sorted| == |g.nodes| <==> forall v :: v in g.nodes ==> Reachable(g, v)
  {
    hide Reachable, EdgesForwardOrExcused, SourcesInOrder;
    DistinctWithin(sorted, g.nodes);
  }

  method PushSources<V(==, !new), E>(g: Graph<V, E>) returns (searchStack: seq<(V, nat)>, visitedNodes: set<V>)
    ensures |searchStack| == |g.sources|
    ensures forall i :: 0 <= i < |searchStack| ==> searchStack[i] == (g.sources[i], 0)
    ensures forall v :: v in visitedNodes <==> v in g.sources
  {
    searchStack, visitedNodes := [], {};
    for k := 0 to |g.sources|
      invariant |searchStack| == k && forall i :: 0 <= i < k ==> searchStack[i] == (g.sources[i], 0)
      invariant forall v :: v in visitedNodes <==> v in g.sources[..k]
    {
      searchStack := searchStack + [(g.sources[k], 0)];
      visitedNodes := visitedNodes + {g.sources[k]};
    }
    assert g.sources[..|g.sources|] == g.sources;
  }
}
