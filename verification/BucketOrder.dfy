/** The order of the nodes in a gain bucket (src/util/fm.cpp:36-46 and 180-217): who was put there last comes first, so
    that maxGain, which takes the last of several equals, moves the one that has been waiting longest. */
module BucketOrder {
  import opened Sequences
  import opened Hypergraphs
  import opened EdgeGains
  import opened FmRuns
  import opened GainBuckets
  import opened GainCorrections
  import opened GreedyPicks
  import opened HeldGains
  import opened PickedRuns

  /** The last place of v in a history of visits, or -1. */
  function LastVisit(history: seq<nat>, v: nat): (i: int)
    ensures -1 <= i < |history|
  {
    if history == [] then -1
    else if history[|history| - 1] == v then |history| - 1
    else LastVisit(history[..|history| - 1], v)
  }

  /** Within a bucket later visited nodes come first. */
  ghost predicate OrderedBy(history: seq<nat>, b: Held) {
    b.Held? && forall u: nat, v: nat ::
      u < |b.ptrGain| && v < |b.ptrGain| && u != v && 0 <= b.ptrGain[u] == b.ptrGain[v] < |b.gain| ==>
        (Before(b.gain[b.ptrGain[u]], u, v) <==> LastVisit(history, u) > LastVisit(history, v))
  }

  /** The pins of an edge are visited if one of its two counts is critical. */
  function EdgeVisits(pins: seq<nat>, sides: seq<bool>, x: nat): seq<nat> {
    if CountOn(pins, sides, Side(sides, x)) <= 2 || CountOn(pins, sides, !Side(sides, x)) <= 1 then pins else []
  }

  function Visits(h: Csr, sides: seq<bool>, x: nat, edges: seq<nat>): seq<nat> {
    if edges == [] then []
    else Visits(h, sides, x, edges[..|edges| - 1]) + EdgeVisits(Pins(h, edges[|edges| - 1]), sides, x)
  }

  function UpTo(n: nat): (s: seq<nat>)
    ensures |s| == n && forall i :: 0 <= i < n ==> s[i] == i
  {
    if n == 0 then [] else UpTo(n - 1) + [n - 1]
  }

  /** All visits of a pass: every node in its turn, and then the pins of the critical edges of each node moved. */
  ghost function History(h: Csr, s0: seq<bool>, order: seq<Step>): seq<nat> {
    if order == [] then UpTo(NNodes(h))
    else
      var x := order[|order| - 1].node;
      History(h, s0, order[..|order| - 1]) + Visits(h, After(s0, order), x, Adjacent(h, x, NEdges(h)))
  }

  // ----- one node

  lemma {:induction false} BeforeErased(bucket: seq<nat>, y: nat, u: nat, v: nat)
    requires Distinct(bucket) && u != y && v != y
    ensures Before(Erase(bucket, y), u, v) <==> Before(bucket, u, v)
    decreases |bucket|
  {
    if y in bucket {
      var k :| 0 <= k < |bucket| && bucket[k] == y;
      var a, b := bucket[..k], bucket[k + 1..];
      assert bucket == a + [y] + b;
      EraseKeepsOrder(bucket, y);
      BeforeLeftOut(a, y, b, u, v);
    } else {
      EraseNothing(bucket, y);
    }
  }

  lemma {:induction false} EraseNothing(bucket: seq<nat>, y: nat)
    requires y !in bucket
    ensures Erase(bucket, y) == bucket
    decreases |bucket|
  {
    if bucket != [] {
      assert bucket[|bucket| - 1] in bucket;
      EraseNothing(bucket[..|bucket| - 1], y);
    }
  }

  lemma BeforeLeftOut(a: seq<nat>, y: nat, b: seq<nat>, u: nat, v: nat)
    requires u != y && v != y
    ensures Before(a + b, u, v) <==> Before(a + [y] + b, u, v)
  {
    var all, less := a + [y] + b, a + b;
    if i, j :| 0 <= i < j < |less| && less[i] == u && less[j] == v {
      var i', j' := if i < |a| then i else i + 1, if j < |a| then j else j + 1;
      assert all[i'] == u && all[j'] == v;
    }
    if i, j :| 0 <= i < j < |all| && all[i] == u && all[j] == v {
      var i', j' := if i < |a| then i else i - 1, if j < |a| then j else j - 1;
      assert less[i'] == u && less[j'] == v;
    }
  }

  lemma BeforeInFront(y: nat, s: seq<nat>, u: nat, v: nat)
    requires y !in s && u != v
    ensures Before([y] + s, u, v) <==> (u == y && v in s) || Before(s, u, v)
  {
    var all := [y] + s;
    if i, j :| 0 <= i < j < |all| && all[i] == u && all[j] == v {
      assert j > 0 && s[j - 1] == v;
      if i > 0 { assert s[i - 1] == u; }
    }
    if u == y && v in s {
      var j :| 0 <= j < |s| && s[j] == v;
      assert all[0] == u && all[j + 1] == v;
    }
    if i, j :| 0 <= i < j < |s| && s[i] == u && s[j] == v { assert all[i + 1] == u && all[j + 1] == v; }
  }

  lemma TakenOrdered(n: nat, d: int, history: seq<nat>, b: Held, x: nat)
    requires InBuckets(n, d, b) && OrderedBy(history, b) && x < n && b.ptrGain[x] != -1
    ensures OrderedBy(history, Taken(b, x))
  {
    var r := Taken(b, x);
    forall u: nat, v: nat | u < n && v < n && u != v && 0 <= r.ptrGain[u] == r.ptrGain[v] < |r.gain|
      ensures Before(r.gain[r.ptrGain[u]], u, v) <==> LastVisit(history, u) > LastVisit(history, v)
    {
      assert u != x && v != x;
      assert Distinct(b.gain[b.ptrGain[x]]);
      hide Distinct, Before, LastVisit;
      BeforeErased(b.gain[b.ptrGain[x]], x, u, v);
    }
  }

  lemma VisitOnce(history: seq<nat>, y: nat, v: nat)
    ensures LastVisit(history + [y], v) == if v == y then |history| else LastVisit(history, v)
  {
    assert (history + [y])[..|history|] == history;
  }

  lemma PutOrdered(n: nat, d: int, history: seq<nat>, b: Held, y: nat, index: int)
    requires InBuckets(n, d, b) && OrderedBy(history, b) && y < n && b.ptrGain[y] == -1 && 0 <= index <= 2 * d
    ensures OrderedBy(history + [y], Put(b, y, index))
  {
    var r := Put(b, y, index);
    forall u: nat, v: nat | u < n && v < n && u != v && 0 <= r.ptrGain[u] == r.ptrGain[v] < |r.gain|
      ensures Before(r.gain[r.ptrGain[u]], u, v) <==> LastVisit(history + [y], u) > LastVisit(history + [y], v)
    {
      VisitOnce(history, y, u);
      VisitOnce(history, y, v);
      assert y !in b.gain[index];
      if r.ptrGain[u] == index {
        assert v != y ==> v in b.gain[b.ptrGain[v]];
        assert Before(b.gain[index], u, v) ==> u in b.gain[index] && v in b.gain[index];
        BeforeInFront(y, b.gain[index], u, v);
      }
    }
  }

  /** A visit to a locked node changes nothing. */
  lemma MovedOrdered(n: nat, d: int, history: seq<nat>, b: Held, y: nat, delta: int)
    requires InBuckets(n, d, b) && OrderedBy(history, b) && y < n && Moved(b, y, delta).Held?
    ensures OrderedBy(history + [y], Moved(b, y, delta))
  {
    MovedKeeps(n, d, b, y, delta);
    BucketsPart(n, d, b.gain, b.ptrGain);
    hide Buckets, Before, Taken, Put;
    if b.ptrGain[y] == -1 {
      forall v: nat ensures v != y ==> LastVisit(history + [y], v) == LastVisit(history, v) {
        VisitOnce(history, y, v);
      }
    } else {
      TakenKeeps(n, d, b, y);
      TakenOrdered(n, d, history, b, y);
      PutOrdered(n, d, history, Taken(b, y), y, b.ptrGain[y] - delta);
    }
  }

  // ----- a pass

  lemma {:induction false} PinsOrdered(
    n: nat, d: int, history: seq<nat>, b: Held, pins: seq<nat>, sides: seq<bool>, to: int, from: int, toBlock: bool)
    requires InBuckets(n, d, b) && OrderedBy(history, b) && forall i :: 0 <= i < |pins| ==> pins[i] < n
    ensures var r := AfterPins(b, pins, sides, to, from, toBlock);
            r.Held? ==> OrderedBy(history + pins, r)
    decreases |pins|
  {
    hide Buckets, OrderedBy, Moved, GainDelta;
    if pins == [] {
      assert history + pins == history;
    } else {
      var front, last := pins[..|pins| - 1], pins[|pins| - 1];
      PinsOrdered(n, d, history, b, front, sides, to, from, toBlock);
      PinsInBuckets(n, d, b, front, sides, to, from, toBlock);
      var r := AfterPins(b, front, sides, to, from, toBlock);
      var delta := GainDelta(to, from, Side(sides, last) == toBlock);
      assert history + front + [last] == history + pins;
      if r.Held? {
        if Moved(r, last, delta).Held? { MovedOrdered(n, d, history + front, r, last, delta); }
      } else {
        MovedOutside(last, delta);
      }
    }
  }

  lemma EdgeOrdered(h: Csr, d: int, history: seq<nat>, b: Held, sides: seq<bool>, x: nat, e: nat)
    requires WellFormed(h) && InBuckets(NNodes(h), d, b) && OrderedBy(history, b)
    ensures var r := AfterEdge(b, Pins(h, e), sides, x);
            r.Held? ==> OrderedBy(history + EdgeVisits(Pins(h, e), sides, x), r)
  {
    hide Buckets, OrderedBy, AfterPins, CountOn;
    var pins := Pins(h, e);
    if 1 <= e < |h.eptr| { PinsSlice(h, e); }
    assert forall i :: 0 <= i < |pins| ==> pins[i] < NNodes(h);
    hide WellFormed, Pins;
    assert history + [] == history;
    PinsOrdered(NNodes(h), d, history, b, pins, sides, CountOn(pins, sides, Side(sides, x)) - 1,
                CountOn(pins, sides, !Side(sides, x)), Side(sides, x));
  }

  lemma {:induction false} EdgesOrdered(
    h: Csr, d: int, history: seq<nat>, b: Held, sides: seq<bool>, x: nat, edges: seq<nat>)
    requires WellFormed(h) && InBuckets(NNodes(h), d, b) && OrderedBy(history, b)
    ensures var r := AfterEdges(h, b, sides, x, edges);
            r.Held? ==> OrderedBy(history + Visits(h, sides, x, edges), r)
    decreases |edges|
  {
    hide Buckets, OrderedBy, Pins, AfterEdge, EdgeVisits, WellFormed;
    if edges == [] {
      assert history + [] == history;
    } else {
      var front, last := edges[..|edges| - 1], edges[|edges| - 1];
      EdgesOrdered(h, d, history, b, sides, x, front);
      EdgesInBuckets(h, d, b, sides, x, front);
      var r := AfterEdges(h, b, sides, x, front);
      if r.Held? {
        EdgeOrdered(h, d, history + Visits(h, sides, x, front), r, sides, x, last);
        assert history + Visits(h, sides, x, edges) ==
               history + Visits(h, sides, x, front) + EdgeVisits(Pins(h, last), sides, x);
      } else {
        assert edges[..|front|] == front;
        EdgesOutside(h, b, sides, x, edges, |front|);
      }
    }
  }

  lemma NextNodeOrdered(history: seq<nat>, b: Held)
    requires OrderedBy(history, b)
    ensures OrderedBy(history, Held(b.gain, b.ptrGain + [-1]))
  {
    hide Before;
  }

  lemma {:induction false} InitialOrdered(h: Csr, sides: seq<bool>, d: nat, k: nat)
    requires k <= |sides| && forall v :: 0 <= v < k ==> |Adjacent(h, v, NEdges(h))| <= d
    ensures OrderedBy(UpTo(k), Initial(h, sides, d, k))
    decreases k
  {
    hide Adjacent, ListGain, Buckets, Before, GainsAre, Put;
    if k > 0 {
      InitialOrdered(h, sides, d, k - 1);
      InitialInBuckets(h, sides, d, k - 1);
      InitialInBuckets(h, sides, d, k);
      var b := Initial(h, sides, d, k - 1);
      BucketsPart(k - 1, d, b.gain, b.ptrGain);
      OneMoreNode(k - 1, d, b.gain, b.ptrGain);
      ListGainBound(h, sides, k - 1, Adjacent(h, k - 1, NEdges(h)));
      NextNodeOrdered(UpTo(k - 1), b);
      hide OrderedBy;
      PutOrdered(k, d, UpTo(k - 1), Held(b.gain, b.ptrGain + [-1]), k - 1, d - ComputedGain(h, sides, k - 1));
    }
  }

  /** On any hypergraph, as long as no index has left the buckets, the visits of the pass so far decide the order. */
  lemma {:induction false} HoldingOrdered(h: Csr, w: Window, s0: seq<bool>, d: nat, order: seq<Step>)
    requires WellFormed(h) && |s0| == NNodes(h) && DegreesWithin(h, d) && PickedLog(h, w, s0, d, order)
    ensures Holding(h, s0, d, order).Held? ==> OrderedBy(History(h, s0, order), Holding(h, s0, d, order))
    decreases |order|
  {
    hide WellFormed, Adjacent, Buckets, AfterEdges, Initial, Rest, Taken, LockedAre, PickedStep, OrderedBy, Visits;
    if order == [] {
      InitialOrdered(h, s0, d, NNodes(h));
    } else {
      var before, x := order[..|order| - 1], order[|order| - 1].node;
      HoldingOrdered(h, w, s0, d, before);
      PickedHolding(h, w, s0, d, before);
      var held := Holding(h, s0, d, before);
      StepIsHeld(h, w, After(s0, before), d, held, order[|order| - 1]);
      PickedIsUnlocked(h, w, After(s0, before), d, held, order[|order| - 1]);
      OneMoreLocked(NNodes(h), d, held, x, Locked(before));
      TakenOrdered(NNodes(h), d, History(h, s0, before), held, x);
      EdgesOrdered(h, d, History(h, s0, before), Taken(held, x), After(s0, order), x, Adjacent(h, x, NEdges(h)));
    }
  }

  /** How ties are broken: of the nodes with the same gain that leave the same slack, the one moves that has been
      waiting in its bucket for longest. */
  lemma LongestWaitingMoves(
    h: Csr, w: Window, sides: seq<bool>, d: nat, held: Held, history: seq<nat>, step: Step, v: nat)
    requires InBuckets(NNodes(h), d, held) && OrderedBy(history, held) && PickedStep(h, w, sides, d, held, step)
    requires v < NNodes(h) && v != step.node && held.ptrGain[v] == d - step.gain
    requires Fits(h, w, sides, v) && Rest(h, w, sides, v) == step.minRest
    ensures LastVisit(history, v) > LastVisit(history, step.node)
  {
    hide Fits, Rest, LastVisit;
    var b: nat, at: nat :| PickedAt(h, w, sides, held.gain, b, at) &&
      step == Step(held.gain[b][at], d - b, Rest(h, w, sides, held.gain[b][at]));
    assert held.gain[b][at] in held.gain[b];
    assert v in held.gain[held.ptrGain[v]];
    var p :| 0 <= p < |held.gain[b]| && held.gain[b][p] == v;
    assert p < at;
    assert Before(held.gain[b], v, step.node);
  }
}
