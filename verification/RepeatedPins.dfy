/** Edges that list a node more than once, as the net of a gate that drives itself does
    (src/gate/transformer/hmetis.cpp:34-40): by how much the gain that countGain computes falls short of the true one.
    */
module RepeatedPins {
  import opened Sequences
  import opened Hypergraphs
  import opened EdgeGains

  /** No node is listed twice, unless it is the only one or the edge has three pins. */
  ghost predicate Correctable(pins: seq<nat>) {
    forall x :: CorrectableFor(pins, x)
  }

  predicate CorrectableFor(pins: seq<nat>, x: nat) {
    Times(pins, x) <= 1 || Times(pins, x) == |pins| || |pins| == 3
  }

  ghost predicate CorrectablePins(h: Csr) {
    forall e :: Correctable(Pins(h, e))
  }

  /** What the gains computed for an edge leave out when the given nodes move once each: all its pins if it lists one of
      them only, and 1 if it lists one of them twice beside another node. */
  ghost function Surplus(pins: seq<nat>, nodes: set<nat>): nat {
    if exists x :: x in nodes && 2 <= Times(pins, x) == |pins| then |pins|
    else if exists x :: x in nodes && 2 <= Times(pins, x) then 1
    else 0
  }

  /** The same for the first k edges. */
  ghost function SurplusOf(h: Csr, nodes: set<nat>, k: nat): nat {
    if k == 0 then 0 else SurplusOf(h, nodes, k - 1) + Surplus(Pins(h, k), nodes)
  }

  /** What the computed gains leave out when every node moves. */
  ghost function TotalSurplus(h: Csr): nat { SurplusOf(h, Below(NNodes(h)), NEdges(h)) }

  lemma DistinctCorrectable(h: Csr)
    requires DistinctPins(h)
    ensures CorrectablePins(h)
  {
    forall e, x ensures Times(Pins(h, e), x) <= 1 {
      TimesDistinct(Pins(h, e), x);
    }
  }

  /** Edges of at most three pins, such as the pairs that src/gate/transformer/hmetis.cpp exports, can be corrected. */
  lemma ShortEdgesCorrectable(h: Csr)
    requires forall e :: |Pins(h, e)| <= 3
    ensures CorrectablePins(h)
  {
    hide Pins;
    forall e, x ensures Times(Pins(h, e), x) <= |Pins(h, e)| {
      TimesOfTwo(Pins(h, e), x, x);
    }
    hide Times;
  }

  /** On an edge that can be corrected the two gains differ by a number that does not depend on the sides. */
  lemma EdgeGainAndTerm(pins: seq<nat>, sides: seq<bool>, v: nat)
    requires v < |sides| && Correctable(pins)
    ensures EdgeGain(pins, sides, v) == EdgeTerm(pins, sides, v) + Surplus(pins, {v})
  {
    var m := Times(pins, v);
    TermAgainstEdgeGain(pins, sides, v);
    CountOnFlip(pins, sides, v, false);
    CountOnFlip(pins, sides, v, true);
    CountOnOwn(pins, sides, v);
    CountOnAll(pins, sides);
    hide CountOn, Times, Flip, Side;
    if m >= 2 {
      assert v in {v} && CorrectableFor(pins, v);
      assert m == |pins| || (m == 2 && |pins| == 3) by { TimesOfTwo(pins, v, v); }
    }
  }

  /** A node that has not moved yet adds its own surplus. */
  lemma SurplusAdded(pins: seq<nat>, nodes: set<nat>, v: nat)
    requires Correctable(pins) && v !in nodes
    ensures Surplus(pins, nodes + {v}) == Surplus(pins, nodes) + Surplus(pins, {v})
  {
    forall x | x in nodes ensures Times(pins, x) + Times(pins, v) <= |pins| {
      TimesOfTwo(pins, x, v);
    }
    hide Times;
    if x :| x in nodes && 2 <= Times(pins, x) {
      assert x in nodes + {v} && CorrectableFor(pins, x);
      assert Times(pins, v) <= 1;
    } else if 2 <= Times(pins, v) {
      assert v in nodes + {v} && v in {v};
    }
  }

  lemma SurplusGrows(pins: seq<nat>, nodes: set<nat>, more: set<nat>)
    requires nodes <= more
    ensures Surplus(pins, nodes) <= Surplus(pins, more)
  {
    hide Times;
    if x :| x in nodes && 2 <= Times(pins, x) == |pins| { assert x in more; }
    if x :| x in nodes && 2 <= Times(pins, x) { assert x in more; }
  }

  lemma {:induction false} SurplusOfAdded(h: Csr, nodes: set<nat>, v: nat, k: nat)
    requires CorrectablePins(h) && v !in nodes
    ensures SurplusOf(h, nodes + {v}, k) == SurplusOf(h, nodes, k) + SurplusOf(h, {v}, k)
    decreases k
  {
    hide Pins, Surplus, Correctable;
    if k > 0 {
      SurplusOfAdded(h, nodes, v, k - 1);
      SurplusAdded(Pins(h, k), nodes, v);
    }
  }

  lemma {:induction false} SurplusOfGrows(h: Csr, nodes: set<nat>, more: set<nat>, k: nat)
    requires nodes <= more
    ensures SurplusOf(h, nodes, k) <= SurplusOf(h, more, k)
    decreases k
  {
    hide Pins, Surplus;
    if k > 0 {
      SurplusOfGrows(h, nodes, more, k - 1);
      SurplusGrows(Pins(h, k), nodes, more);
    }
  }

  lemma {:induction false} NoSurplus(h: Csr, nodes: set<nat>, k: nat)
    ensures SurplusOf(h, {}, k) == 0
    ensures DistinctPins(h) ==> SurplusOf(h, nodes, k) == 0
    decreases k
  {
    hide Pins;
    if k > 0 {
      NoSurplus(h, nodes, k - 1);
      if DistinctPins(h) {
        forall x ensures Times(Pins(h, k), x) <= 1 { TimesDistinct(Pins(h, k), x); }
      }
    }
  }

  lemma {:induction false} ListGainAndCut(h: Csr, sides: seq<bool>, v: nat, k: nat)
    requires v < |sides| && CorrectablePins(h)
    ensures Cut(h, sides, k) - Cut(h, Flip(sides, v), k) ==
            ListGain(h, sides, v, Adjacent(h, v, k)) + SurplusOf(h, {v}, k)
    decreases k
  {
    hide Pins, EdgeTerm, IsCut, Surplus, Correctable, ListGain, Adjacent;
    if k > 0 {
      ListGainAndCut(h, sides, v, k - 1);
      ListGainStep(h, sides, v, k);
      EdgeGainAndTerm(Pins(h, k), sides, v);
    } else {
      NothingListed(h, sides, v);
    }
  }

  /** The computed gain is the true one less a number that depends on the node only. */
  lemma ComputedGainFallsShort(h: Csr, sides: seq<bool>, v: nat)
    requires v < |sides| && CorrectablePins(h)
    ensures Gain(h, sides, v) == ComputedGain(h, sides, v) + SurplusOf(h, {v}, NEdges(h))
  {
    ListGainAndCut(h, sides, v, NEdges(h));
  }
}
