/** The branch without rollback is reachable: a partition problem that FMAlgo makes worse. */
module CutRaised {
  import opened Sequences
  import opened Hypergraphs
  import opened EdgeGains
  import opened RepeatedPins
  import opened FmRuns
  import opened Balance
  import opened PickedRuns
  import opened FmAlgo

  /** Two nodes of weight 1 joined by one edge. */
  const PAIR := Csr([1, 1], [0, 2], [0, 1])

  lemma CountOnPair(sides: seq<bool>, s: bool)
    requires |sides| == 2
    ensures CountOn([0, 1], sides, s) == (if sides[0] == s then 1 else 0) + (if sides[1] == s then 1 else 0)
  {
    var pins: seq<nat> := [0, 1];
    assert pins[..1] == [0] && pins[..1][..0] == [];
    assert CountOn(pins[..1], sides, s) == if sides[0] == s then 1 else 0;
  }

  lemma PairCut(sides: seq<bool>)
    requires |sides| == 2
    ensures CutSize(PAIR, sides) == if sides[0] == sides[1] then 0 else 1
  {
    hide CountOn;
    assert Pins(PAIR, 1) == [0, 1] && NEdges(PAIR) == 1;
    hide Pins, NEdges;
    CountOnPair(sides, false);
    CountOnPair(sides, true);
    assert Cut(PAIR, sides, 0) == 0;
  }

  lemma PairArea(sides: seq<bool>)
    requires |sides| == 2
    ensures AreaOf(PAIR, sides, false) == (if sides[0] then 0 else 1) + (if sides[1] then 0 else 1)
  {
    assert PAIR.weights == [1, 1];
    assert Area(PAIR.weights, sides, false, 1) == if sides[0] then 0 else 1;
  }

  lemma PairIsWellFormed()
    ensures WellFormed(PAIR) && DistinctPins(PAIR) && CorrectablePins(PAIR) && SumsFit(PAIR)
  {
    forall e ensures Distinct(Pins(PAIR, e)) {
      assert Pins(PAIR, e) == if e == 1 then [0, 1] else [];
    }
    DistinctCorrectable(PAIR);
    NoSurplus(PAIR, Below(2), 1);
  }

  /** Moving either node of the pair away from the other loses 1; moving the second one as well overfills side 0. */
  lemma PairMoves(v: nat)
    requires v < 2
    ensures ComputedGain(PAIR, [true, true], v) == -1 && CutSize(PAIR, Flip([true, true], v)) == 1
    ensures Fits(PAIR, Window(0, 1), [true, true], v)
    ensures !InWindow(PAIR, Window(0, 1), [false, false])
  {
    hide Cut, Area, ListGain, Adjacent;
    PairIsWellFormed();
    CountGainExact(PAIR, [true, true], v);
    PairCut([true, true]);
    PairCut(Flip([true, true], v));
    PairArea([false, false]);
    PairArea(Flip([true, true], v));
  }

  lemma NoSecondMove(order: seq<Step>)
    requires GreedyLog(PAIR, Window(0, 1), [true, true], order)
    ensures |order| <= 1
  {
    hide ComputedGain, Rest, InWindow;
    if |order| >= 2 {
      GreedyPrefix(PAIR, Window(0, 1), [true, true], order, 2);
      LogFlipsLocked(PAIR, Window(0, 1), [true, true], order[..2]);
      FullSet(Locked(order[..2]), 2);
      assert After([true, true], order[..2]) == [false, false];
      PairMoves(0);
    }
  }

  /** In the window [0, 1] a pass over the pair moves one node, loses 1, and keeps the move. */
  lemma PassOverPair(p: Pass)
    requires IsPass(PAIR, Window(0, 1), [true, true], p)
    ensures p.gm == -1 && CutSize(PAIR, EndSides([true, true], p)) == 1
  {
    hide CutSize, ComputedGain, Rest, Fits;
    var order := p.order;
    NoSecondMove(order);
    if order == [] {
      assert 0 !in Locked(order) && After([true, true], order) == [true, true];
      PairMoves(0);
      assert false;
    } else {
      assert order[..0] == [] && After([true, true], order) == Flip([true, true], order[0].node);
      PairMoves(order[0].node);
    }
  }

  lemma {:induction false} RunOverPair(run: seq<Pass>)
    requires IsRun(PAIR, Window(0, 1), [true, true], run) && run != []
    ensures |run| == 1 && CutSize(PAIR, FinalSides([true, true], run)) == 1
  {
    hide CutSize, IsPass, EndSides;
    var before := run[..|run| - 1];
    if before != [] {
      RunStart(PAIR, Window(0, 1), [true, true], run);
      PassOverPair(run[0]);
    } else {
      PassOverPair(run[0]);
    }
  }

  lemma PairStart(sides: seq<bool>)
    requires Filled(PAIR.weights, Middle(WindowOf(PAIR, 0.375)), sides)
    ensures WindowOf(PAIR, 0.375) == Window(0, 1) && sides == [true, true]
  {
    assert TotalOf(PAIR.weights, 1) == 1 && Total(PAIR) == 2;
    assert MaxOf(PAIR.weights, 1) == 1;
    assert Target(PAIR, 0.375) == 0.75;
  }

  /** With the ratio 0.375 of the repository's own tests, every run of at least one pass starts from a partition of the
      pair that cuts nothing and ends with one that cuts the edge. */
  lemma RunRaisesCut(s0: seq<bool>, run: seq<Pass>)
    requires Filled(PAIR.weights, Middle(WindowOf(PAIR, 0.375)), s0)
    requires IsRun(PAIR, WindowOf(PAIR, 0.375), s0, run) && run != []
    ensures CutSize(PAIR, s0) == 0 && CutSize(PAIR, FinalSides(s0, run)) == 1
  {
    hide CutSize, IsRun, FinalSides, Filled;
    PairStart(s0);
    PairCut(s0);
    RunOverPair(run);
  }

  /** FMAlgo has such a run, for any limit of at least one pass. */
  method FmRaisesCut(passes: int) returns (fm: FMAlgo, ghost s0: seq<bool>, ghost run: seq<Pass>)
    requires passes >= 1
    ensures fm.h == PAIR && fm.r == 0.375 && fm.passes == passes
    ensures Filled(PAIR.weights, Middle(WindowOf(PAIR, 0.375)), s0)
    ensures IsRun(PAIR, WindowOf(PAIR, 0.375), s0, run) && Stopped(run, passes)
    ensures fm.sides == FinalSides(s0, run) && CutSize(PAIR, s0) == 0 && CutSize(PAIR, fm.sides) == 1
  {
    hide CutSize, IsRun, FinalSides, PickedRun, Filled, DegreesWithin;
    PairIsWellFormed();
    fm := new FMAlgo(PAIR, 0.375, passes);
    s0 := fm.sides;
    var defined;
    ghost var last;
    defined, run, last := fm.Fm();
    RunRaisesCut(s0, run);
  }
}
