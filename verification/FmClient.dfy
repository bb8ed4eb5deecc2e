/** How the partitioner is used (test/util/fm_test.cpp:35-48): partition a hypergraph and count the cut from the
    distribution table. */
module FmClient {
  import opened Hypergraphs
  import opened RepeatedPins
  import opened FmRuns
  import opened Balance
  import opened Tables
  import opened PickedRuns
  import opened FmAlgo
  import opened PartitionHgraph

  /** Partitions h, starting from the sides s0. On any hypergraph, unless the run is undefined, the sides are determined
      by h, the ratio and the limit; the number returned is their cut; and with nonnegative weights and a ratio between
      0 and 1 they are balanced. If the pins can be corrected and the sums fit, the run is defined and has at most one
      pass more than the initial cut. */
  method Partition(h: Csr, r: real, passes: int)
    returns (sides: seq<bool>, cutset: nat, defined: bool,
             ghost s0: seq<bool>, ghost d: nat, ghost run: seq<Pass>, ghost last: seq<Step>)
    requires WellFormed(h)
    ensures Filled(h.weights, Middle(WindowOf(h, r)), s0) && DegreesWithin(h, d)
    ensures defined ==> |sides| == NNodes(h) && cutset == CutSize(h, sides)
    ensures Outcome(h, WindowOf(h, r), s0, d, passes, defined, run, last)
    ensures defined ==> sides == FinalSides(s0, run)
    ensures defined && NonNegative(h.weights) && 0.0 <= r <= 1.0 ==> InWindow(h, WindowOf(h, r), sides)
    ensures CorrectablePins(h) && SumsFit(h) ==> defined && IsRun(h, WindowOf(h, r), s0, run)
    ensures CorrectablePins(h) && SumsFit(h) ==>
      |run| <= CutSize(h, s0) + 1 && cutset == CutSize(h, s0) - RunGain(h, run)
  {
    hide WellFormed, CorrectablePins, SumsFit, IsRun, FinalSides, RunGain, Cut, Tabled, Filled, InWindow, PickedRun;
    hide DegreesWithin, Stopped, PickedLog, Ended, SumsInRange;
    var graph := new HyperGraph.FromVectors(h.weights, h.eptr, h.eind);
    var algo := new FMAlgo(h, r, passes);
    s0 := algo.sides;
    defined, run, last := algo.Fm();
    sides, d := algo.sides, algo.maxDegree;
    TabledShape(h, sides, algo.distrib);
    NonEmptyPtr(h);
    cutset := graph.CountCutSetOfTable(algo.distrib);
    assert graph.Value() == h && Tabled(graph.Value(), sides, algo.distrib);
    if CorrectablePins(h) && SumsFit(h) {
      RunLength(h, WindowOf(h, r), s0, run);
      RunAccounting(h, WindowOf(h, r), s0, run);
    }
    if NonNegative(h.weights) && 0.0 <= r <= 1.0 {
      InitialBalance(h, r, s0);
      PickedRunKeepsWindow(h, WindowOf(h, r), s0, d, run);
    }
  }

  lemma NonEmptyPtr(h: Csr)
    requires WellFormed(h)
    ensures h.eptr != []
  {
  }
}
