/** The adjacency lists and the distribution table of FMAlgo while they are built and while a node moves
    (src/util/fm.cpp:98-109, 159-169 and 240-248). */
module Tables {
  import opened Sequences
  import opened Hypergraphs
  import opened EdgeGains

  /** How many pins below v are on side s. */
  function CountBelow(pins: seq<nat>, sides: seq<bool>, s: bool, v: nat): nat {
    if pins == [] then 0
    else CountBelow(pins[..|pins| - 1], sides, s, v) +
         (if pins[|pins| - 1] < v && Side(sides, pins[|pins| - 1]) == s then 1 else 0)
  }

  lemma {:induction false} CountBelowStep(pins: seq<nat>, sides: seq<bool>, s: bool, v: nat)
    ensures CountBelow(pins, sides, s, 0) == 0
    ensures CountBelow(pins, sides, s, v + 1) ==
            CountBelow(pins, sides, s, v) + (if Side(sides, v) == s then Times(pins, v) else 0)
    decreases |pins|
  {
    if pins != [] { CountBelowStep(pins[..|pins| - 1], sides, s, v); }
  }

  lemma {:induction false} CountBelowAll(pins: seq<nat>, sides: seq<bool>, s: bool, v: nat)
    requires forall i :: 0 <= i < |pins| ==> pins[i] < v
    ensures CountBelow(pins, sides, s, v) == CountOn(pins, sides, s)
    decreases |pins|
  {
    if pins != [] { CountBelowAll(pins[..|pins| - 1], sides, s, v); }
  }

  /** The table after the nodes below v have been counted. */
  ghost predicate TabledBelow(h: Csr, sides: seq<bool>, v: nat, distrib: seq<seq<int>>) {
    && |distrib| == 2 && |distrib[0]| == |h.eptr| && |distrib[1]| == |h.eptr|
    && forall e: nat :: e < |h.eptr| ==>
         distrib[0][e] == CountBelow(Pins(h, e), sides, false, v) &&
         distrib[1][e] == CountBelow(Pins(h, e), sides, true, v)
  }

  /** Every edge has its pins of the node moved from the given side to the other one. */
  ghost predicate Shifted(h: Csr, node: nat, side: bool, was: seq<seq<int>>, distrib: seq<seq<int>>) {
    && |was| == 2 && |was[0]| == |was[1]| == |h.eptr|
    && |distrib| == 2 && |distrib[0]| == |distrib[1]| == |h.eptr|
    && forall e: nat :: e < |h.eptr| ==>
         distrib[Ix(side)][e] == was[Ix(side)][e] - Times(Pins(h, e), node) &&
         distrib[Ix(!side)][e] == was[Ix(!side)][e] + Times(Pins(h, e), node)
  }

  lemma TabledFlip(h: Csr, sides: seq<bool>, node: nat, was: seq<seq<int>>, distrib: seq<seq<int>>)
    requires node < |sides| && Tabled(h, sides, was) && Shifted(h, node, sides[node], was, distrib)
    ensures Tabled(h, Flip(sides, node), distrib)
  {
    forall e: nat | e < |h.eptr|
      ensures distrib[0][e] == CountOn(Pins(h, e), Flip(sides, node), false)
      ensures distrib[1][e] == CountOn(Pins(h, e), Flip(sides, node), true)
    {
      hide Pins, Flip;
      CountOnFlip(Pins(h, e), sides, node, false);
      CountOnFlip(Pins(h, e), sides, node, true);
    }
  }

  lemma AdjacentInRange(h: Csr, v: nat)
    ensures forall e: nat :: e in Adjacent(h, v, NEdges(h)) ==> 1 <= e < |h.eptr|
    ensures forall e: nat :: e < |h.eptr| ==> Times(Adjacent(h, v, NEdges(h)), e) == Times(Pins(h, e), v)
  {
    forall e: nat
      ensures e in Adjacent(h, v, NEdges(h)) ==> 1 <= e < |h.eptr|
      ensures e < |h.eptr| ==> Times(Adjacent(h, v, NEdges(h)), e) == Times(Pins(h, e), v)
    {
      AdjacentEntries(h, v, NEdges(h), e);
    }
  }

  lemma TabledOneMore(h: Csr, sides: seq<bool>, v: nat, was: seq<seq<int>>, distrib: seq<seq<int>>)
    requires v < |sides| && TabledBelow(h, sides, v, was)
    requires |distrib| == 2 && |distrib[0]| == |distrib[1]| == |h.eptr|
    requires distrib[Ix(!sides[v])] == was[Ix(!sides[v])]
    requires forall e: nat :: e < |h.eptr| ==>
      distrib[Ix(sides[v])][e] == was[Ix(sides[v])][e] + Times(Pins(h, e), v)
    ensures TabledBelow(h, sides, v + 1, distrib)
  {
    forall e: nat | e < |h.eptr|
      ensures distrib[0][e] == CountBelow(Pins(h, e), sides, false, v + 1)
      ensures distrib[1][e] == CountBelow(Pins(h, e), sides, true, v + 1)
    {
      CountBelowStep(Pins(h, e), sides, false, v);
      CountBelowStep(Pins(h, e), sides, true, v);
    }
  }

  lemma EmptyTable(h: Csr, sides: seq<bool>, distrib: seq<seq<int>>)
    requires |distrib| == 2 && |distrib[0]| == |distrib[1]| == |h.eptr|
    requires forall e :: 0 <= e < |h.eptr| ==> distrib[0][e] == 0 && distrib[1][e] == 0
    ensures TabledBelow(h, sides, 0, distrib)
  {
    hide Pins, Side;
    forall e: nat, s ensures CountBelow(Pins(h, e), sides, s, 0) == 0 {
      CountBelowStep(Pins(h, e), sides, s, 0);
    }
  }

  lemma FullTable(h: Csr, sides: seq<bool>, distrib: seq<seq<int>>)
    requires WellFormed(h) && TabledBelow(h, sides, NNodes(h), distrib)
    ensures Tabled(h, sides, distrib)
  {
    hide CountBelow, CountOn;
    forall e: nat, s ensures CountBelow(Pins(h, e), sides, s, NNodes(h)) == CountOn(Pins(h, e), sides, s) {
      CountBelowAll(Pins(h, e), sides, s, NNodes(h));
    }
  }

  lemma TabledShape(h: Csr, sides: seq<bool>, distrib: seq<seq<int>>)
    requires Tabled(h, sides, distrib)
    ensures |distrib| == 2 && |distrib[0]| == |distrib[1]| == |h.eptr|
  {
  }

  lemma TermFromTable(h: Csr, sides: seq<bool>, v: nat, e: nat, distrib: seq<seq<int>>)
    requires Tabled(h, sides, distrib) && v < |sides| && e < |h.eptr|
    ensures Term(Pins(h, e), sides, v) ==
            Int(distrib[Ix(sides[v])][e] == 1) - Int(distrib[Ix(!sides[v])][e] == 0)
  {
  }

  /** A longer slice of an array: one more element, still a part of the whole slice. */
  lemma SliceStep(s: seq<nat>, first: nat, i: nat, last: nat)
    requires first <= i < last <= |s|
    ensures s[first..i + 1] == s[first..i] + [s[i]]
    ensures s[i] in s[first..last]
    ensures s[first..i] + [s[i]] <= s[first..last]
  {
    var all := s[first..last];
    assert s[i] == all[i - first] && s[first..i] == all[..i - first];
  }

  /** Every list has e appended as often as the pins name its node. */
  ghost predicate Extended(e: nat, pins: seq<nat>, was: seq<seq<nat>>, lists: seq<seq<nat>>) {
    |lists| == |was| && forall v: nat :: v < |was| ==> lists[v] == was[v] + Repeat(e, Times(pins, v))
  }

  lemma ExtendedOne(e: nat, front: seq<nat>, x: nat, was: seq<seq<nat>>, lists: seq<seq<nat>>)
    requires Extended(e, front, was, lists) && x < |lists|
    ensures Extended(e, front + [x], was, lists[x := lists[x] + [e]])
  {
    assert (front + [x])[..|front|] == front;
  }

  lemma AdjacentStep(h: Csr, e: nat)
    requires e >= 1
    ensures forall v :: Adjacent(h, v, e) == Adjacent(h, v, e - 1) + Repeat(e, Times(Pins(h, e), v))
  {
  }

  lemma NothingAdjacent(h: Csr)
    ensures forall v :: Adjacent(h, v, 0) == []
  {
  }
}
