/** The hypergraph of src/util/partition_hgraph.h in compressed (CSR) form, and what "cut" means for it.
    Edges are numbered 1..NEdges(h), as in src/util/fm.cpp; nodes are numbered from 0. */
module Hypergraphs {
  import opened Sequences

  /** Edge e has the pins eind[eptr[e - 1]..eptr[e]]. */
  datatype Csr = Csr(weights: seq<int>, eptr: seq<nat>, eind: seq<nat>)

  ghost predicate WellFormed(h: Csr) {
    && |h.eptr| >= 1
    && h.eptr[0] == 0
    && h.eptr[|h.eptr| - 1] <= |h.eind|
    && (forall i, j :: 0 <= i <= j < |h.eptr| ==> h.eptr[i] <= h.eptr[j])
    && (forall i :: 0 <= i < |h.eind| ==> h.eind[i] < |h.weights|)
  }

  function NNodes(h: Csr): nat { |h.weights| }

  function NEdges(h: Csr): nat { if h.eptr == [] then 0 else |h.eptr| - 1 }

  /** The pins of edge e; there is no edge 0, and it has no pins. */
  function Pins(h: Csr, e: nat): seq<nat> {
    if 1 <= e < |h.eptr| && h.eptr[e - 1] <= h.eptr[e] <= |h.eind| then h.eind[h.eptr[e - 1]..h.eptr[e]] else []
  }

  /** The side of a node; a node that sides does not list counts as being on side 0. */
  function Side(sides: seq<bool>, v: nat): bool { v < |sides| && sides[v] }

  ghost predicate DistinctPins(h: Csr) {
    forall e :: Distinct(Pins(h, e))
  }

  /** How many of the pins are on side s. */
  function CountOn(pins: seq<nat>, sides: seq<bool>, s: bool): nat {
    if pins == [] then 0
    else CountOn(pins[..|pins| - 1], sides, s) + (if Side(sides, pins[|pins| - 1]) == s then 1 else 0)
  }

  /** An edge is cut when it has pins on both sides. */
  predicate IsCut(pins: seq<nat>, sides: seq<bool>) {
    CountOn(pins, sides, false) > 0 && CountOn(pins, sides, true) > 0
  }

  /** The number of cut edges among the first k edges. */
  function Cut(h: Csr, sides: seq<bool>, k: nat): nat {
    if k == 0 then 0 else Cut(h, sides, k - 1) + (if IsCut(Pins(h, k), sides) then 1 else 0)
  }

  ghost function CutEdges(h: Csr, sides: seq<bool>, k: nat): set<nat> {
    set e | 1 <= e <= k && IsCut(Pins(h, e), sides)
  }

  lemma {:induction false} CutCountsEdges(h: Csr, sides: seq<bool>, k: nat)
    ensures Cut(h, sides, k) == |CutEdges(h, sides, k)|
    decreases k
  {
    hide IsCut, Pins;
    if k > 0 {
      CutCountsEdges(h, sides, k - 1);
      var before := CutEdges(h, sides, k - 1);
      assert k !in before;
      if IsCut(Pins(h, k), sides) {
        assert CutEdges(h, sides, k) == before + {k};
      } else {
        assert CutEdges(h, sides, k) == before;
      }
    }
  }

  function CutSize(h: Csr, sides: seq<bool>): nat {
    Cut(h, sides, NEdges(h))
  }

  /** The sides after node v has moved to the other side. */
  function Flip(sides: seq<bool>, v: nat): (r: seq<bool>)
    ensures |r| == |sides|
  {
    if v < |sides| then sides[v := !sides[v]] else sides
  }

  /** The gain of moving v to the other side, by definition: the cut before minus the cut after. */
  function Gain(h: Csr, sides: seq<bool>, v: nat): int {
    CutSize(h, sides) - CutSize(h, Flip(sides, v))
  }

  /** The index of a side in arrays of two. */
  function Ix(side: bool): nat { if side then 1 else 0 }

  /** The distribution table counts the pins of every edge on either side. */
  ghost predicate Tabled(h: Csr, sides: seq<bool>, distrib: seq<seq<int>>) {
    && |distrib| == 2 && |distrib[0]| == |h.eptr| && |distrib[1]| == |h.eptr|
    && forall e: nat :: e < |h.eptr| ==>
         distrib[0][e] == CountOn(Pins(h, e), sides, false) && distrib[1][e] == CountOn(Pins(h, e), sides, true)
  }

  /** In a well-formed hypergraph the pins of an edge are a slice of eind. */
  lemma PinsSlice(h: Csr, e: nat)
    requires WellFormed(h) && 1 <= e < |h.eptr|
    ensures h.eptr[e - 1] <= h.eptr[e] <= |h.eind|
    ensures Pins(h, e) == h.eind[h.eptr[e - 1]..h.eptr[e]]
    ensures forall i :: h.eptr[e - 1] <= i < h.eptr[e] ==> h.eind[i] < NNodes(h)
  {
  }

  // ----- counting pins by side

  lemma {:induction false} CountOnPositive(pins: seq<nat>, sides: seq<bool>, s: bool)
    ensures CountOn(pins, sides, s) > 0 <==> exists i :: 0 <= i < |pins| && Side(sides, pins[i]) == s
    decreases |pins|
  {
    if pins != [] {
      CountOnPositive(pins[..|pins| - 1], sides, s);
    }
  }

  /** A cut edge is one with two pins on different sides. */
  lemma CutMeansDifferentSides(pins: seq<nat>, sides: seq<bool>)
    ensures IsCut(pins, sides) <==>
            exists i, j :: 0 <= i < |pins| && 0 <= j < |pins| && Side(sides, pins[i]) != Side(sides, pins[j])
  {
    CountOnPositive(pins, sides, false);
    CountOnPositive(pins, sides, true);
  }

  lemma {:induction false} CountOnAll(pins: seq<nat>, sides: seq<bool>)
    ensures CountOn(pins, sides, false) + CountOn(pins, sides, true) == |pins|
    decreases |pins|
  {
    if pins != [] { CountOnAll(pins[..|pins| - 1], sides); }
  }

  /** Moving v shifts as many pins as the edge has occurrences of v. */
  lemma {:induction false} CountOnFlip(pins: seq<nat>, sides: seq<bool>, v: nat, s: bool)
    requires v < |sides|
    ensures Side(sides, v) == s ==> CountOn(pins, Flip(sides, v), s) == CountOn(pins, sides, s) - Times(pins, v)
    ensures Side(sides, v) != s ==> CountOn(pins, Flip(sides, v), s) == CountOn(pins, sides, s) + Times(pins, v)
    decreases |pins|
  {
    if pins != [] {
      CountOnFlip(pins[..|pins| - 1], sides, v, s);
    }
  }

  /** The side of v holds at least the occurrences of v. */
  lemma {:induction false} CountOnOwn(pins: seq<nat>, sides: seq<bool>, v: nat)
    requires v < |sides|
    ensures CountOn(pins, sides, Side(sides, v)) >= Times(pins, v)
    decreases |pins|
  {
    if pins != [] {
      CountOnOwn(pins[..|pins| - 1], sides, v);
    }
  }

  lemma {:induction false} CountOnComplement(pins: seq<nat>, sides: seq<bool>, flipped: seq<bool>, s: bool)
    requires Opposite(sides, flipped) && forall i :: 0 <= i < |pins| ==> pins[i] < |sides|
    ensures CountOn(pins, flipped, s) == CountOn(pins, sides, !s)
    decreases |pins|
  {
    if pins != [] { CountOnComplement(pins[..|pins| - 1], sides, flipped, s); }
  }

  ghost predicate Opposite(sides: seq<bool>, flipped: seq<bool>) {
    |flipped| == |sides| && forall v :: 0 <= v < |sides| ==> flipped[v] == !sides[v]
  }

  /** Moving every node to the other side leaves the cut as it was. */
  lemma {:induction false} CutComplement(h: Csr, sides: seq<bool>, flipped: seq<bool>, k: nat)
    requires WellFormed(h) && |sides| == NNodes(h) && Opposite(sides, flipped)
    ensures Cut(h, flipped, k) == Cut(h, sides, k)
    decreases k
  {
    if k > 0 {
      CutComplement(h, sides, flipped, k - 1);
      var pins := Pins(h, k);
      CountOnComplement(pins, sides, flipped, false);
      CountOnComplement(pins, sides, flipped, true);
    }
  }

  lemma {:induction false} CutBound(h: Csr, sides: seq<bool>, k: nat)
    ensures Cut(h, sides, k) <= k
    decreases k
  {
    hide IsCut, Pins;
    if k > 0 { CutBound(h, sides, k - 1); }
  }
}
