/** The hypergraph that HyperGraph::addLinkedEdges generates (src/util/partition_hgraph.cpp:70-78): edges of step
    consecutive nodes, each starting with the last node of the one before. */
module LinkedEdges {
  import opened Sequences
  import opened Hypergraphs

  /** The pins of the edge that starts at node i. */
  function EdgeFrom(n: nat, step: nat, i: nat): (p: seq<nat>)
    requires n > 0
    ensures |p| == step && forall j :: 0 <= j < step ==> p[j] == (j + i) % n
  {
    seq(step, j requires 0 <= j => (j + i) % n)
  }

  /** Where edge k + 1 starts. */
  function Start(step: nat, k: nat): (i: nat)
    requires step >= 2
    ensures i >= k
  {
    if k == 0 then 0 else Start(step, k - 1) + (step - 1)
  }

  function LinkedPtr(step: nat, k: nat): (p: seq<nat>)
    ensures |p| == k + 1
  {
    if k == 0 then [0] else LinkedPtr(step, k - 1) + [step + LinkedPtr(step, k - 1)[k - 1]]
  }

  function LinkedInd(n: nat, step: nat, k: nat): seq<nat>
    requires n > 0 && step >= 2
  {
    if k == 0 then [] else LinkedInd(n, step, k - 1) + EdgeFrom(n, step, Start(step, k - 1))
  }

  /** The number of edges: starts are below n up to this one. */
  ghost predicate EdgeCount(n: nat, step: nat, k: nat)
    requires step >= 2
  {
    Start(step, k) >= n && (k == 0 || Start(step, k - 1) < n)
  }

  function Linked(weights: seq<int>, step: nat, k: nat): Csr
    requires step >= 2
  {
    Csr(weights, LinkedPtr(step, k), if |weights| == 0 then [] else LinkedInd(|weights|, step, k))
  }

  lemma NothingLinked(weights: seq<int>, step: nat)
    requires step >= 2
    ensures Linked(weights, step, 0).eptr == [0] && Linked(weights, step, 0).eind == []
  {
  }

  lemma LinkedOneMore(weights: seq<int>, step: nat, k: nat)
    requires |weights| > 0 && step >= 2
    ensures Linked(weights, step, k + 1).eptr ==
            Linked(weights, step, k).eptr + [step + Linked(weights, step, k).eptr[k]]
    ensures Linked(weights, step, k + 1).eind ==
            Linked(weights, step, k).eind + EdgeFrom(|weights|, step, Start(step, k))
    ensures |Linked(weights, step, k).eptr| == k + 1
  {
  }

  lemma {:induction false} LinkedSizes(n: nat, step: nat, k: nat, e: nat)
    requires n > 0 && step >= 2 && e <= k
    ensures LinkedPtr(step, k)[e] == |LinkedInd(n, step, e)| && LinkedInd(n, step, e) <= LinkedInd(n, step, k)
    decreases k
  {
    hide EdgeFrom, Start;
    if e < k {
      LinkedSizes(n, step, k - 1, e);
    } else if k > 0 {
      LinkedSizes(n, step, k - 1, k - 1);
    }
  }

  lemma LinkedShape(n: nat, step: nat, k: nat, e: nat)
    requires n > 0 && step >= 2 && e < k
    ensures LinkedPtr(step, k)[e] <= LinkedPtr(step, k)[e + 1] == |LinkedInd(n, step, e + 1)| <= |LinkedInd(n, step, k)|
    ensures LinkedPtr(step, k)[e] == |LinkedInd(n, step, e)|
    ensures LinkedInd(n, step, k)[LinkedPtr(step, k)[e]..LinkedPtr(step, k)[e + 1]] == EdgeFrom(n, step, Start(step, e))
  {
    hide LinkedPtr, EdgeFrom, Start;
    LinkedSizes(n, step, k, e);
    LinkedSizes(n, step, k, e + 1);
    AppendedSlice(LinkedInd(n, step, e), EdgeFrom(n, step, Start(step, e)), LinkedInd(n, step, k));
  }

  lemma AppendedSlice(a: seq<nat>, b: seq<nat>, whole: seq<nat>)
    requires a + b <= whole
    ensures whole[|a|..|a| + |b|] == b
  {
    assert whole[..|a + b|] == a + b;
    assert whole[|a|..|a| + |b|] == whole[..|a + b|][|a|..];
  }

  /** The pins of edge e are step nodes with consecutive numbers, counted round the end. */
  lemma LinkedPins(weights: seq<int>, step: nat, k: nat, e: nat)
    requires |weights| > 0 && step >= 2 && 1 <= e <= k
    ensures Pins(Linked(weights, step, k), e) == EdgeFrom(|weights|, step, Start(step, e - 1))
  {
    hide EdgeFrom, LinkedPtr, LinkedInd, Start;
    LinkedShape(|weights|, step, k, e - 1);
  }

  /** The generator's promise: every edge has step nodes, and ends with the first node of the next one. */
  lemma LinkedChain(weights: seq<int>, step: nat, k: nat, e: nat)
    requires |weights| > 0 && step >= 2 && 1 <= e < k
    ensures var h := Linked(weights, step, k);
            |Pins(h, e)| == |Pins(h, e + 1)| == step && Pins(h, e + 1)[0] == Pins(h, e)[step - 1]
  {
    hide Linked, Pins, EdgeFrom, Start;
    LinkedPins(weights, step, k, e);
    LinkedPins(weights, step, k, e + 1);
    StartStep(step, e);
    EdgesMeet(|weights|, step, Start(step, e - 1));
  }

  lemma StartStep(step: nat, k: nat)
    requires step >= 2 && k >= 1
    ensures Start(step, k) == Start(step, k - 1) + (step - 1)
  {
  }

  lemma EdgesMeet(n: nat, step: nat, i: nat)
    requires n > 0 && step >= 2
    ensures EdgeFrom(n, step, i)[step - 1] == EdgeFrom(n, step, i + (step - 1))[0]
  {
    assert step - 1 + i == 0 + (i + (step - 1));
  }

  lemma EdgeHolds(n: nat, step: nat, i: nat, j: nat)
    requires n > 0 && j < step && i + j < n
    ensures i + j in EdgeFrom(n, step, i)
  {
    var p := EdgeFrom(n, step, i);
    hide EdgeFrom;
    assert p[j] == (j + i) % n == i + j;
  }

  lemma {:induction false} InRangeInd(n: nat, step: nat, k: nat)
    requires n > 0 && step >= 2
    ensures forall i :: 0 <= i < |LinkedInd(n, step, k)| ==> LinkedInd(n, step, k)[i] < n
    decreases k
  {
    if k > 0 { InRangeInd(n, step, k - 1); }
  }

  lemma LinkedWellFormed(weights: seq<int>, step: nat, k: nat)
    requires step >= 2 && (|weights| == 0 ==> k == 0)
    ensures WellFormed(Linked(weights, step, k))
    ensures Linked(weights, step, k).eptr[k] == |Linked(weights, step, k).eind|
  {
    if k > 0 {
      var n := |weights|;
      InRangeInd(n, step, k);
      LinkedShape(n, step, k, k - 1);
      forall i, j | 0 <= i <= j < k + 1 ensures LinkedPtr(step, k)[i] <= LinkedPtr(step, k)[j] {
        PtrMonotone(n, step, k, i, j);
      }
      assert LinkedPtr(step, k)[0] == 0 by { LinkedShape(n, step, k, 0); }
    }
  }

  lemma {:induction false} PtrMonotone(n: nat, step: nat, k: nat, i: nat, j: nat)
    requires n > 0 && step >= 2 && i <= j <= k
    ensures LinkedPtr(step, k)[i] <= LinkedPtr(step, k)[j]
    decreases j
  {
    if i < j {
      PtrMonotone(n, step, k, i, j - 1);
      LinkedShape(n, step, k, j - 1);
    }
  }

  /** The pins of every edge are distinct exactly when an edge is not longer than the cycle of nodes. */
  lemma LinkedDistinctIff(weights: seq<int>, step: nat, k: nat)
    requires |weights| > 0 && step >= 2 && k >= 1
    ensures DistinctPins(Linked(weights, step, k)) <==> step <= |weights|
  {
    hide Linked, EdgeFrom;
    var n := |weights|;
    var h := Linked(weights, step, k);
    if step <= n {
      forall e: nat ensures Distinct(Pins(h, e)) {
        if 1 <= e <= k {
          LinkedPins(weights, step, k, e);
          WindowDistinct(n, step, Start(step, e - 1));
        } else {
          NoSuchEdge(weights, step, k, e);
        }
      }
    } else {
      LinkedPins(weights, step, k, 1);
      var p := Pins(h, 1);
      assert p[0] == (0 + 0) % n && p[n] == (n + 0) % n;
      assert p[0] == p[n];
    }
  }

  lemma NoSuchEdge(weights: seq<int>, step: nat, k: nat, e: nat)
    requires step >= 2 && !(1 <= e <= k)
    ensures Pins(Linked(weights, step, k), e) == []
  {
  }

  lemma WindowDistinct(n: nat, step: nat, i: nat)
    requires n > 0 && step <= n
    ensures Distinct(EdgeFrom(n, step, i))
  {
    var p := EdgeFrom(n, step, i);
    forall a, b | 0 <= a < b < step ensures p[a] != p[b] {
      if (a + i) % n == (b + i) % n {
        SameRemainder(a + i, b + i, n);
        assert false;
      }
    }
  }

  lemma NoMultipleBetween(n: int, d: int)
    requires n > 0
    ensures !(0 < n * d < n)
  {
    if d >= 1 { assert n * d >= n; } else { assert n * d <= 0; }
  }

  lemma SameRemainder(x: nat, y: nat, n: nat)
    requires n > 0 && x < y < x + n
    ensures x % n != y % n
  {
    var a, b := x / n, y / n;
    assert x == n * a + x % n;
    assert y == n * b + y % n;
    assert n * (b - a) == n * b - n * a;
    NoMultipleBetween(n, b - a);
  }

  // ----- connectivity

  ghost predicate ShareEdge(h: Csr, u: nat, v: nat) {
    exists e :: 1 <= e <= NEdges(h) && u in Pins(h, e) && v in Pins(h, e)
  }

  ghost predicate Walk(h: Csr, p: seq<nat>) {
    p != [] && forall i :: 0 < i < |p| ==> ShareEdge(h, p[i - 1], p[i])
  }

  ghost predicate Joined(h: Csr, u: nat, v: nat) {
    exists p :: Walk(h, p) && p[0] == u && p[|p| - 1] == v
  }

  lemma ShareEdgeBack(h: Csr, u: nat, v: nat)
    requires ShareEdge(h, u, v)
    ensures ShareEdge(h, v, u)
  {
  }

  function Backwards(p: seq<nat>): (r: seq<nat>)
    ensures |r| == |p| && forall i :: 0 <= i < |p| ==> r[i] == p[|p| - 1 - i]
  {
    if p == [] then [] else [p[|p| - 1]] + Backwards(p[..|p| - 1])
  }

  lemma JoinedBack(h: Csr, u: nat, v: nat)
    requires Joined(h, u, v)
    ensures Joined(h, v, u)
  {
    hide ShareEdge, Backwards;
    var p :| Walk(h, p) && p[0] == u && p[|p| - 1] == v;
    var q := Backwards(p);
    forall i | 0 < i < |q| ensures ShareEdge(h, q[i - 1], q[i]) {
      var j := |p| - i;
      assert ShareEdge(h, p[j - 1], p[j]);
      ShareEdgeBack(h, p[j - 1], p[j]);
    }
    assert Walk(h, q);
  }

  lemma JoinedThrough(h: Csr, u: nat, v: nat, w: nat)
    requires Joined(h, u, v) && Joined(h, v, w)
    ensures Joined(h, u, w)
  {
    hide ShareEdge;
    var p :| Walk(h, p) && p[0] == u && p[|p| - 1] == v;
    var q :| Walk(h, q) && q[0] == v && q[|q| - 1] == w;
    var r := p + q[1..];
    forall i | 0 < i < |r| ensures ShareEdge(h, r[i - 1], r[i]) {
      if i >= |p| { assert r[i] == q[i - |p| + 1] && r[i - 1] == q[i - |p|]; }
    }
    assert Walk(h, r);
  }

  lemma JoinedByEdge(h: Csr, u: nat, v: nat)
    requires ShareEdge(h, u, v)
    ensures Joined(h, u, v)
  {
    var p := [u, v];
    assert Walk(h, p);
  }

  lemma JoinedSelf(h: Csr, u: nat)
    ensures Joined(h, u, u)
  {
    var p := [u];
    assert Walk(h, p);
  }

  /** The edge whose first step - 1 places include node v. */
  lemma {:induction false} EdgeOf(step: nat, v: nat, k: nat) returns (e: nat)
    requires step >= 2 && v < Start(step, k)
    ensures e < k && Start(step, e) <= v < Start(step, e) + step - 1
    decreases k
  {
    if v < Start(step, k - 1) { e := EdgeOf(step, v, k - 1); } else { e := k - 1; }
  }

  /** Every edge's start is joined to node 0. */
  lemma {:induction false} StartJoined(weights: seq<int>, step: nat, k: nat, e: nat)
    requires |weights| > 0 && step >= 2 && EdgeCount(|weights|, step, k) && e < k
    ensures Start(step, e) < |weights| && Joined(Linked(weights, step, k), 0, Start(step, e))
    decreases e
  {
    hide Linked, Joined, Pins, NEdges;
    var h := Linked(weights, step, k);
    StartMonotone(step, e, k - 1);
    if e == 0 {
      JoinedSelf(h, 0);
    } else {
      StartJoined(weights, step, k, e - 1);
      InEdge(weights, step, k, e - 1, 0);
      InEdge(weights, step, k, e - 1, step - 1);
      JoinedByEdge(h, Start(step, e - 1), Start(step, e));
      JoinedThrough(h, 0, Start(step, e - 1), Start(step, e));
    }
  }

  lemma {:induction false} StartMonotone(step: nat, i: nat, j: nat)
    requires step >= 2 && i <= j
    ensures Start(step, i) <= Start(step, j)
    decreases j
  {
    if i < j { StartMonotone(step, i, j - 1); }
  }

  /** Places of edge e + 1 that do not run over the end hold the nodes counted from its start. */
  lemma InEdge(weights: seq<int>, step: nat, k: nat, e: nat, j: nat)
    requires |weights| > 0 && step >= 2 && e < k && j < step && Start(step, e) + j < |weights|
    ensures Start(step, e) + j in Pins(Linked(weights, step, k), e + 1)
    ensures NEdges(Linked(weights, step, k)) == k
  {
    hide EdgeFrom, Pins, Start, LinkedInd;
    LinkedPins(weights, step, k, e + 1);
    EdgeHolds(|weights|, step, Start(step, e), j);
  }

  /** The generated hypergraph is connected. */
  lemma LinkedConnected(weights: seq<int>, step: nat, k: nat, u: nat, v: nat)
    requires step >= 2 && EdgeCount(|weights|, step, k) && u < |weights| && v < |weights|
    ensures Joined(Linked(weights, step, k), u, v)
  {
    hide Linked, Joined;
    JoinedToRoot(weights, step, k, u);
    JoinedToRoot(weights, step, k, v);
    JoinedBack(Linked(weights, step, k), 0, u);
    JoinedThrough(Linked(weights, step, k), u, 0, v);
  }

  lemma JoinedToRoot(weights: seq<int>, step: nat, k: nat, v: nat)
    requires step >= 2 && EdgeCount(|weights|, step, k) && v < |weights|
    ensures Joined(Linked(weights, step, k), 0, v)
  {
    hide Linked, Joined;
    var h := Linked(weights, step, k);
    var e := EdgeOf(step, v, k);
    StartJoined(weights, step, k, e);
    InEdge(weights, step, k, e, 0);
    InEdge(weights, step, k, e, v - Start(step, e));
    JoinedByEdge(h, Start(step, e), v);
    JoinedThrough(h, 0, Start(step, e), v);
  }

  /** Every node is on some edge. */
  lemma EveryNodeCovered(weights: seq<int>, step: nat, k: nat, v: nat)
    requires step >= 2 && EdgeCount(|weights|, step, k) && v < |weights|
    ensures exists e :: 1 <= e <= k && v in Pins(Linked(weights, step, k), e)
  {
    hide Linked, Pins;
    var e := EdgeOf(step, v, k);
    InEdge(weights, step, k, e, v - Start(step, e));
    assert v in Pins(Linked(weights, step, k), e + 1);
  }

  lemma {:induction false} StartIsMultiple(step: nat, k: nat)
    requires step >= 2
    ensures Start(step, k) == k * (step - 1)
    decreases k
  {
    if k > 0 {
      StartIsMultiple(step, k - 1);
      assert (k - 1) * (step - 1) + (step - 1) == k * (step - 1);
    }
  }

  /** The number of edges is n / (step - 1), rounded up. */
  lemma EdgeCountIsCeiling(n: nat, step: nat, k: nat)
    requires step >= 2 && EdgeCount(n, step, k)
    ensures k == (n + step - 2) / (step - 1)
  {
    StartIsMultiple(step, k);
    if k > 0 {
      StartIsMultiple(step, k - 1);
      assert (k - 1) * (step - 1) == k * (step - 1) - (step - 1);
    }
    hide Start;
    Quotient(n + step - 2, step - 1, k);
  }

  lemma Quotient(m: nat, d: nat, k: nat)
    requires d > 0 && k * d <= m < k * d + d
    ensures m / d == k
  {
    var q := m / d;
    assert m == q * d + m % d;
    if q < k { Multiples(q + 1, k, d); }
    if q > k { Multiples(k + 1, q, d); }
  }

  lemma Multiples(a: nat, b: nat, d: nat)
    requires a <= b
    ensures a * d <= b * d && (a - 1) * d == a * d - d
  {
    assert (b - a) * d >= 0;
  }
}
