/** Class HyperGraph of src/util/partition_hgraph.h: the generator of linked edges and the two cut counters. */
module PartitionHgraph {
  import opened Sequences
  import opened Hypergraphs
  import opened LinkedEdges

  /** How many of the first k columns of a distribution table have pins on both sides. */
  function BothSides(distrib: seq<seq<int>>, k: nat): nat
    requires |distrib| >= 2 && k <= |distrib[0]| && k <= |distrib[1]|
  {
    if k == 0 then 0
    else BothSides(distrib, k - 1) + (if distrib[0][k - 1] != 0 && distrib[1][k - 1] != 0 then 1 else 0)
  }

  ghost function MixedColumns(distrib: seq<seq<int>>, k: nat): set<nat>
    requires |distrib| >= 2 && k <= |distrib[0]| && k <= |distrib[1]|
  {
    set i: nat | i < k && distrib[0][i] != 0 && distrib[1][i] != 0
  }

  /** On any table, exact or not. */
  lemma {:induction false} BothSidesCountsColumns(distrib: seq<seq<int>>, k: nat)
    requires |distrib| >= 2 && k <= |distrib[0]| && k <= |distrib[1]|
    ensures BothSides(distrib, k) == |MixedColumns(distrib, k)|
    decreases k
  {
    if k > 0 {
      BothSidesCountsColumns(distrib, k - 1);
      var before := MixedColumns(distrib, k - 1);
      assert k - 1 !in before;
      if distrib[0][k - 1] != 0 && distrib[1][k - 1] != 0 {
        assert MixedColumns(distrib, k) == before + {k - 1};
      } else {
        assert MixedColumns(distrib, k) == before;
      }
    }
  }

  /** An exact table, whose columns are numbered like the edges from 1, counts the cut; column 0 adds nothing. */
  lemma {:induction false} TableCountsCut(h: Csr, sides: seq<bool>, distrib: seq<seq<int>>, k: nat)
    requires Tabled(h, sides, distrib) && k < |h.eptr|
    ensures BothSides(distrib, k + 1) == Cut(h, sides, k)
    decreases k
  {
    hide CountOn;
    if k > 0 {
      TableCountsCut(h, sides, distrib, k - 1);
    } else {
      NoEdgeZero(h, sides);
    }
  }

  lemma NoEdgeZero(h: Csr, sides: seq<bool>)
    ensures CountOn(Pins(h, 0), sides, false) == 0
  {
  }

  /** A hypergraph with linked edges added to it. */
  function AddedTo(h: Csr, step: nat, k: nat): Csr
    requires step >= 2
  {
    var l := Linked(h.weights, step, k);
    Csr(h.weights, h.eptr + l.eptr, h.eind + l.eind)
  }

  /** Linked edges added to a well-formed hypergraph leave it well-formed exactly when none of its edges has a pin,
      which for offsets that span all pins means that there are none: the generator starts its offsets at 0 again. */
  lemma AddedToExistingIff(h: Csr, step: nat, k: nat)
    requires WellFormed(h) && step >= 2 && (NNodes(h) == 0 ==> k == 0)
    ensures WellFormed(AddedTo(h, step, k)) <==> h.eptr[|h.eptr| - 1] == 0
    ensures h.eptr[|h.eptr| - 1] == |h.eind| ==>
      (WellFormed(AddedTo(h, step, k)) <==> h.eind == [])
  {
    hide LinkedPtr, LinkedInd;
    var l := Linked(h.weights, step, k);
    var both := AddedTo(h, step, k);
    LinkedWellFormed(h.weights, step, k);
    if WellFormed(both) {
      assert both.eptr[|h.eptr| - 1] == h.eptr[|h.eptr| - 1] && both.eptr[|h.eptr|] == 0;
    }
    if h.eptr[|h.eptr| - 1] == 0 {
      assert forall i :: 0 <= i < |h.eptr| ==> h.eptr[i] == 0;
    }
  }

  class HyperGraph {
    var weights: seq<int>
    var eptr: seq<nat>
    var eind: seq<nat>

    function Value(): Csr reads this { Csr(weights, eptr, eind) }

    constructor FromVectors(weights: seq<int>, eptr: seq<nat>, eind: seq<nat>)
      ensures Value() == Csr(weights, eptr, eind)
    {
      this.weights, this.eptr, this.eind := weights, eptr, eind;
    }

    /** Nodes of weight 0 and no edges. */
    constructor (nodesSize: nat)
      ensures |weights| == nodesSize && eptr == [] && eind == []
    {
      weights, eptr, eind := seq(nodesSize, _ => 0), [], [];
    }

    method AddLinkedEdges(step: nat) returns (ghost k: nat)
      requires step >= 2
      modifies `eptr, `eind
      ensures EdgeCount(|weights|, step, k)
      ensures eptr == old(eptr) + Linked(weights, step, k).eptr
      ensures eind == old(eind) + Linked(weights, step, k).eind
    {
      hide LinkedInd, LinkedPtr, Linked, EdgeFrom;
      k := 0;
      eptr := eptr + [0];
      NothingLinked(weights, step);
      var i := 0;
      while i < |weights|
        invariant i == Start(step, k) && (k > 0 ==> Start(step, k - 1) < |weights|)
        invariant eptr == old(eptr) + Linked(weights, step, k).eptr
        invariant eind == old(eind) + Linked(weights, step, k).eind
        decreases |weights| - i
      {
        LinkedOneMore(weights, step, k);
        AddPins(step, i);
        eptr := eptr + [step + eptr[|eptr| - 1]];
        i := i + (step - 1);
        k := k + 1;
      }
    }

    /** The inner loop of AddLinkedEdges. */
    method AddPins(step: nat, i: nat)
      requires |weights| > 0
      modifies `eind
      ensures eind == old(eind) + EdgeFrom(|weights|, step, i)
    {
      ghost var pins := [];
      for j := 0 to step
        invariant |pins| == j && forall m :: 0 <= m < j ==> pins[m] == (m + i) % |weights|
        invariant eind == old(eind) + pins
      {
        eind := eind + [(j + i) % |weights|];
        pins := pins + [(j + i) % |weights|];
      }
      assert pins == EdgeFrom(|weights|, step, i);
    }

    /** The number of edges with pins on both sides. Every edge must have a first pin to look at. */
    method CountCutSet(sides: seq<bool>) returns (cutset: nat)
      requires WellFormed(Value()) && |sides| == |weights|
      requires forall i :: 0 <= i < |eptr| - 1 ==> eptr[i] < |eind|
      ensures cutset == CutSize(Value(), sides) == |CutEdges(Value(), sides, |eptr| - 1)|
    {
      hide IsCut, Pins, CutEdges;
      CutCountsEdges(Value(), sides, |eptr| - 1);
      cutset := 0;
      for i := 0 to |eptr| - 1
        invariant cutset == Cut(Value(), sides, i)
      {
        var cut := HasBothSides(sides, i);
        if cut { cutset := cutset + 1; }
      }
    }

    /** The inner loop of CountCutSet: it stops at the first pin that is not on the side of the first one. */
    method HasBothSides(sides: seq<bool>, i: nat) returns (cut: bool)
      requires WellFormed(Value()) && |sides| == |weights| && i < |eptr| - 1 && eptr[i] < |eind|
      ensures cut <==> IsCut(Pins(Value(), i + 1), sides)
    {
      hide IsCut, Distinct;
      PinsSlice(Value(), i + 1);
      var first, last := eptr[i], eptr[i + 1];
      ghost var pins := eind[first..last];
      CutMeansDifferentSides(pins, sides);
      var side := sides[eind[first]];
      for j := first to last
        invariant forall m :: first <= m < j ==> sides[eind[m]] == side
      {
        if sides[eind[j]] != side {
          assert pins[0] == eind[first] && pins[j - first] == eind[j];
          assert Side(sides, pins[0]) != Side(sides, pins[j - first]);
          return true;
        }
      }
      assert forall m :: 0 <= m < |pins| ==> pins[m] == eind[first + m];
      return false;
    }

    /** The number of columns of the table with pins on both sides. */
    method CountCutSetOfTable(distrib: seq<seq<int>>) returns (cutset: nat)
      requires |distrib| >= 2 && |distrib[0]| <= |distrib[1]|
      ensures cutset == |MixedColumns(distrib, |distrib[0]|)|
      ensures forall sides :: eptr != [] && Tabled(Value(), sides, distrib) ==> cutset == CutSize(Value(), sides)
    {
      cutset := 0;
      for i := 0 to |distrib[0]|
        invariant cutset == BothSides(distrib, i)
      {
        cutset := cutset + if distrib[0][i] != 0 && distrib[1][i] != 0 then 1 else 0;
      }
      BothSidesCountsColumns(distrib, |distrib[0]|);
      forall sides | eptr != [] && Tabled(Value(), sides, distrib)
        ensures cutset == CutSize(Value(), sides)
      {
        TableCountsCut(Value(), sides, distrib, NEdges(Value()));
      }
    }
  }
}
