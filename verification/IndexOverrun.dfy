/** A hypergraph with repeated pins for which FMAlgo leaves its gain buckets. */
module IndexOverrun {
  import opened Sequences
  import opened Hypergraphs
  import opened EdgeGains
  import opened RepeatedPins
  import opened FmRuns
  import opened GainBuckets
  import opened Balance
  import opened GainCorrections
  import opened HeldGains
  import opened PickedRuns
  import opened FmAlgo

  /** Two nodes, each listed twice by the one edge. */
  const DOUBLED := Csr([1, 2], [0, 4], [1, 1, 0, 0])

  lemma DoubledPins()
    ensures WellFormed(DOUBLED) && NEdges(DOUBLED) == 1 && Pins(DOUBLED, 1) == [1, 1, 0, 0]
  {
  }

  lemma PinByPin(pins: seq<nat>, i: nat, sides: seq<bool>, s: bool)
    requires i < |pins| && pins[i] < |sides|
    ensures forall v :: Times(pins[..i + 1], v) == Times(pins[..i], v) + if pins[i] == v then 1 else 0
    ensures CountOn(pins[..i + 1], sides, s) == CountOn(pins[..i], sides, s) + if sides[pins[i]] == s then 1 else 0
    ensures Times([], 0) == 0 && Times([], 1) == 0 && CountOn([], sides, s) == 0
  {
    assert pins[..i + 1][..i] == pins[..i];
  }

  lemma DoubledCounts(pins: seq<nat>, sides: seq<bool>, s: bool)
    requires pins == [1, 1, 0, 0] && |sides| == 2
    ensures Times(pins, 0) == 2 && Times(pins, 1) == 2
    ensures CountOn(pins, sides, s) == (if sides[0] == s then 2 else 0) + (if sides[1] == s then 2 else 0)
  {
    PinByPin(pins, 0, sides, s);
    PinByPin(pins, 1, sides, s);
    PinByPin(pins, 2, sides, s);
    PinByPin(pins, 3, sides, s);
    assert pins[..4] == pins && pins[..0] == [];
    hide CountOn, Times;
  }

  lemma DoubledNotCorrectable()
    ensures !CorrectablePins(DOUBLED)
  {
    DoubledPins();
    DoubledCounts(Pins(DOUBLED, 1), [false, true], false);
    assert !CorrectableFor(Pins(DOUBLED, 1), 0);
    assert !Correctable(Pins(DOUBLED, 1));
  }

  /** Both nodes have degree 2 and, on different sides, gain 0. */
  lemma DoubledGains(v: nat)
    requires v < 2
    ensures |Adjacent(DOUBLED, v, 1)| == 2
    ensures ComputedGain(DOUBLED, [false, true], v) == 0
  {
    hide Adjacent, ListGain, Pins, CountOn, Times;
    DoubledPins();
    DoubledCounts(Pins(DOUBLED, 1), [false, true], false);
    DoubledCounts(Pins(DOUBLED, 1), [false, true], true);
    NothingListed(DOUBLED, [false, true], v);
    ListGainStep(DOUBLED, [false, true], v, 1);
  }

  lemma DoubledStart(sides: seq<bool>)
    requires Filled(DOUBLED.weights, Middle(WindowOf(DOUBLED, 0.5)), sides)
    ensures WindowOf(DOUBLED, 0.5) == Window(0, 3) && sides == [false, true]
  {
    assert TotalOf(DOUBLED.weights, 1) == 1 && Total(DOUBLED) == 3;
    assert MaxOf(DOUBLED.weights, 1) == 1 && MaxOf(DOUBLED.weights, 2) == 2;
    assert Target(DOUBLED, 0.5) == 1.5;
    assert Middle(Window(0, 3)) == 1;
    assert Area(DOUBLED.weights, sides, false, 0) == 0;
    assert Area(DOUBLED.weights, sides, false, 1) == 1;
  }

  lemma DoubledFits(v: nat)
    requires v < 2
    ensures Fits(DOUBLED, Window(0, 3), [false, true], v)
  {
    var moved := Flip([false, true], v);
    assert Area(DOUBLED.weights, moved, false, 1) == if v == 0 then 0 else 1;
  }

  /** After the first move one round over the edge takes the other node to bucket 4, and the next pin asks for bucket 5.
      */
  lemma NextPinLeavesBuckets(node: nat, sides: seq<bool>, ptrGain: seq<int>, p: seq<int>)
    requires node < 2 && sides == Flip([false, true], node) && ptrGain == [2, 2][node := -1]
    requires Corrected(Pins(DOUBLED, 1), sides, 3, 0, Side(sides, node), ptrGain, p)
    ensures p[1 - node] == 4 && p[1 - node] - GainDelta(3, 0, Side(sides, 1 - node) == Side(sides, node)) == 5
  {
    DoubledPins();
    DoubledCounts(Pins(DOUBLED, 1), sides, false);
    hide Pins, Times, CountOn;
    assert ptrGain[1 - node] == 2;
  }

  /** One round of gainUpdate moves the other node down by 2, if it stays inside. */
  lemma RoundMovesDown(node: nat, sides: seq<bool>, b: Held)
    requires node < 2 && sides == Flip([false, true], node) && InBuckets(2, 2, b) && b.ptrGain[1 - node] != -1
    ensures var r := AfterEdge(b, Pins(DOUBLED, 1), sides, node);
            r.Held? ==> InBuckets(2, 2, r) && r.ptrGain[1 - node] == b.ptrGain[1 - node] + 2 != -1
  {
    hide Buckets;
    DoubledPins();
    var pins := Pins(DOUBLED, 1);
    DoubledCounts(pins, sides, false);
    DoubledCounts(pins, sides, true);
    hide Pins, Times, CountOn, AfterPins;
    BucketsPart(2, 2, b.gain, b.ptrGain);
    PinsInBuckets(2, 2, b, pins, sides, 3, 0, Side(sides, node));
  }

  /** The second round leaves the buckets, whichever node moved first. */
  lemma RoundsLeaveBuckets(node: nat, sides: seq<bool>, b: Held, edges: seq<nat>)
    requires node < 2 && sides == Flip([false, true], node) && InBuckets(2, 2, b) && b.ptrGain == [2, 2][node := -1]
    requires edges == [1, 1]
    ensures AfterEdges(DOUBLED, b, sides, node, edges).Outside?
  {
    hide Buckets, AfterEdge, Pins;
    NoEdgesYet(DOUBLED, b, sides, node, edges[..0]);
    EdgesStep(DOUBLED, b, sides, node, edges, 0);
    EdgesStep(DOUBLED, b, sides, node, edges, 1);
    assert edges[..2] == edges && b.ptrGain[1 - node] == 2;
    hide AfterEdges;
    RoundMovesDown(node, sides, b);
    var r := AfterEdges(DOUBLED, b, sides, node, edges[..1]);
    if r.Held? {
      RoundMovesDown(node, sides, r);
      var q := AfterEdges(DOUBLED, b, sides, node, edges);
      if q.Held? { BucketsPart(2, 2, q.gain, q.ptrGain); }
    } else {
      EdgesOutside(DOUBLED, b, sides, node, edges, 1);
    }
  }

  lemma DoubledDegrees()
    ensures DegreesWithin(DOUBLED, 2)
    ensures Adjacent(DOUBLED, 0, 1) == [1, 1] && Adjacent(DOUBLED, 1, 1) == [1, 1]
  {
    hide Adjacent;
    DoubledPins();
    forall v: nat | v < 2 ensures Adjacent(DOUBLED, v, 1) == [1, 1] {
      DoubledGains(v);
      forall i | 0 <= i < 2 ensures Adjacent(DOUBLED, v, 1)[i] == 1 {
        AdjacentEntries(DOUBLED, v, 1, Adjacent(DOUBLED, v, 1)[i]);
      }
    }
  }

  lemma DoubledInitial()
    ensures var b := Initial(DOUBLED, [false, true], 2, 2);
            InBuckets(2, 2, b) && b.ptrGain == [2, 2] && 0 in b.gain[2]
  {
    hide Initial, Adjacent, ComputedGain, Distinct;
    DoubledPins();
    DoubledDegrees();
    InitialInBuckets(DOUBLED, [false, true], 2, 2);
    DoubledGains(0);
    DoubledGains(1);
    var b := Initial(DOUBLED, [false, true], 2, 2);
    assert b.ptrGain[0] == 2 && b.ptrGain[1] == 2;
    assert 0 in b.gain[b.ptrGain[0]];
  }

  lemma FirstMoveLeavesBuckets(order: seq<Step>)
    requires PickedLog(DOUBLED, Window(0, 3), [false, true], 2, order) && |order| == 1
    ensures Holding(DOUBLED, [false, true], 2, order).Outside?
  {
    hide Initial, Adjacent, Fits, Rest, AfterEdges, Buckets, Taken, PickedStep;
    DoubledInitial();
    DoubledDegrees();
    DoubledPins();
    hide Pins;
    var before := order[..|order| - 1];
    assert before == [];
    var b := Initial(DOUBLED, [false, true], 2, 2);
    PickedIsUnlocked(DOUBLED, Window(0, 3), [false, true], 2, b, order[0]);
    var x := order[0].node;
    TakenKeeps(2, 2, b, x);
    RoundsLeaveBuckets(x, Flip([false, true], x), Taken(b, x), [1, 1]);
  }

  /** Every log of a pass over this hypergraph ends by leaving the buckets. */
  lemma LogLeavesBuckets(order: seq<Step>)
    requires PickedLog(DOUBLED, Window(0, 3), [false, true], 2, order)
    requires Ended(DOUBLED, Window(0, 3), [false, true], 2, order)
    ensures Holding(DOUBLED, [false, true], 2, order).Outside?
  {
    hide PickedLog, Holding, Fits, After;
    if order == [] {
      LogStart(DOUBLED, Window(0, 3), [false, true], 2);
      DoubledInitial();
      DoubledFits(0);
    } else {
      PickedPrefix(DOUBLED, Window(0, 3), [false, true], 2, order, 1);
      FirstMoveLeavesBuckets(order[..1]);
      HoldingOutside(DOUBLED, [false, true], 2, order, 1);
    }
  }

  lemma NoPassOverDoubled(run: seq<Pass>)
    requires PickedRun(DOUBLED, Window(0, 3), [false, true], 2, run)
    ensures run == []
  {
    hide PickedLog, Holding, Ended, EndSides;
    if run != [] {
      RunPrefix(DOUBLED, Window(0, 3), [false, true], 2, run, 0);
      NoPasses(DOUBLED, Window(0, 3), [false, true], 2);
      assert run[..0] == [];
      LogLeavesBuckets(run[0].order);
    }
  }

  /** At ratio 0.5 FMAlgo leaves the buckets in its first pass, whatever the limit. */
  method LeavesBuckets(passes: int) returns (fm: FMAlgo, defined: bool, ghost order: seq<Step>)
    requires passes >= 1
    ensures fm.h == DOUBLED && fm.r == 0.5 && fm.passes == passes && !defined
    ensures PickedLog(DOUBLED, WindowOf(DOUBLED, 0.5), [false, true], 2, order)
    ensures Holding(DOUBLED, [false, true], 2, order).Outside?
  {
    hide PickedLog, Holding, Filled, DegreesWithin, PickedRun, Ended, Adjacent, Tabled, Pins;
    DoubledPins();
    fm := new FMAlgo(DOUBLED, 0.5, passes);
    DoubledStart(fm.sides);
    hide WindowOf;
    ghost var run;
    defined, run, order := fm.Fm();
    DoubledDegrees();
    DegreeIsTwo(fm);
    NoPassOverDoubled(run);
    LogLeavesBuckets(order);
  }

  lemma DegreeIsTwo(fm: FMAlgo)
    requires fm.h == DOUBLED && fm.Linked() && fm.maxDegree >= 0 && DegreesWithin(DOUBLED, fm.maxDegree)
    requires fm.maxDegree == 0 || exists v :: 0 <= v < |fm.adjacentList| && |fm.adjacentList[v]| == fm.maxDegree
    ensures fm.maxDegree == 2
  {
    hide Adjacent, Pins;
    DoubledPins();
    DoubledDegrees();
    assert |Adjacent(DOUBLED, 0, 1)| == 2;
  }
}
