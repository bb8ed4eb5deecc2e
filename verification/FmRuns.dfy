/** What src/util/fm.cpp does, as relations on values: greedy move logs, passes with their best prefix and rollback,
    and whole runs. FMAlgo (FmAlgo.dfy) is proved to produce such runs; the theorems here hold for every one. */
module FmRuns {
  import opened Sequences
  import opened Hypergraphs
  import opened EdgeGains
  import opened RepeatedPins

  /** The balance window [lower, upper] for the area of side 0. */
  datatype Window = Window(lower: int, upper: int)

  /** A move in the log: the node, its gain, and the slack the move leaves in the window. */
  datatype Step = Step(node: nat, gain: int, minRest: int)

  /** A pass: the log of tentative moves, the best prefix sum Gm and the index m of the last move of that prefix. */
  datatype Pass = Pass(order: seq<Step>, gm: int, m: nat)

  const INT_MIN := -0x8000_0000
  const INT_MAX := 0x7fff_ffff

  // ----- areas and the window

  /** The weight on side s among the first k nodes. */
  function Area(weights: seq<int>, sides: seq<bool>, s: bool, k: nat): int
    requires k <= |weights|
  {
    if k == 0 then 0 else Area(weights, sides, s, k - 1) + (if Side(sides, k - 1) == s then weights[k - 1] else 0)
  }

  function AreaOf(h: Csr, sides: seq<bool>, s: bool): int { Area(h.weights, sides, s, NNodes(h)) }

  function TotalOf(weights: seq<int>, k: nat): int
    requires k <= |weights|
  {
    if k == 0 then 0 else TotalOf(weights, k - 1) + weights[k - 1]
  }

  function Total(h: Csr): int { TotalOf(h.weights, NNodes(h)) }

  predicate InWindow(h: Csr, w: Window, sides: seq<bool>) {
    w.lower <= AreaOf(h, sides, false) <= w.upper
  }

  /** The slack that moving v would leave. */
  function Rest(h: Csr, w: Window, sides: seq<bool>, v: nat): int {
    var area := AreaOf(h, Flip(sides, v), false);
    if area - w.lower < w.upper - area then area - w.lower else w.upper - area
  }

  predicate Fits(h: Csr, w: Window, sides: seq<bool>, v: nat) {
    InWindow(h, w, Flip(sides, v))
  }

  lemma {:induction false} AreaFlip(weights: seq<int>, sides: seq<bool>, v: nat, s: bool, k: nat)
    requires v < |sides| && k <= |weights|
    ensures Area(weights, Flip(sides, v), s, k) ==
            Area(weights, sides, s, k) + (if k <= v then 0 else if sides[v] == s then -weights[v] else weights[v])
    decreases k
  {
    if k > 0 { AreaFlip(weights, sides, v, s, k - 1); }
  }

  lemma {:induction false} AreasAddUp(weights: seq<int>, sides: seq<bool>, k: nat)
    requires k <= |weights|
    ensures Area(weights, sides, false, k) + Area(weights, sides, true, k) == TotalOf(weights, k)
    decreases k
  {
    if k > 0 { AreasAddUp(weights, sides, k - 1); }
  }

  lemma {:induction false} AreaNonNegative(weights: seq<int>, sides: seq<bool>, s: bool, k: nat)
    requires k <= |weights| && forall v :: 0 <= v < k ==> weights[v] >= 0
    ensures 0 <= Area(weights, sides, s, k)
    decreases k
  {
    if k > 0 { AreaNonNegative(weights, sides, s, k - 1); }
  }

  // ----- move logs

  function After(sides: seq<bool>, order: seq<Step>): (r: seq<bool>)
    ensures |r| == |sides|
  {
    if order == [] then sides else Flip(After(sides, order[..|order| - 1]), order[|order| - 1].node)
  }

  function Locked(order: seq<Step>): set<nat> {
    if order == [] then {} else Locked(order[..|order| - 1]) + {order[|order| - 1].node}
  }

  /** The greedy choice of src/util/fm.cpp:123-145: among the unlocked nodes that fit the window, one of maximum gain,
      and among those of that gain one of maximum slack; gains are those that countGain computes. */
  ghost predicate GreedyChoice(h: Csr, w: Window, sides: seq<bool>, locked: set<nat>, step: Step) {
    && step.node < NNodes(h) == |sides|
    && step.node !in locked
    && Fits(h, w, sides, step.node)
    && step.gain == ComputedGain(h, sides, step.node)
    && step.minRest == Rest(h, w, sides, step.node)
    && forall v: nat :: v < NNodes(h) && v !in locked && Fits(h, w, sides, v) ==>
         ComputedGain(h, sides, v) <= step.gain &&
         (ComputedGain(h, sides, v) == step.gain ==> Rest(h, w, sides, v) <= step.minRest)
  }

  ghost predicate GreedyLog(h: Csr, w: Window, s0: seq<bool>, order: seq<Step>) {
    order == [] ||
    (var before := order[..|order| - 1];
     GreedyLog(h, w, s0, before) &&
     GreedyChoice(h, w, After(s0, before), Locked(before), order[|order| - 1]))
  }

  /** No unlocked node fits the window any more (src/util/fm.cpp:47-53). */
  ghost predicate Exhausted(h: Csr, w: Window, s0: seq<bool>, order: seq<Step>) {
    forall v: nat :: v < NNodes(h) && v !in Locked(order) ==> !Fits(h, w, After(s0, order), v)
  }

  /** The gains of the steps 0..i added up. */
  function GainThrough(order: seq<Step>, i: nat): int
    requires i < |order|
  {
    order[i].gain + (if i == 0 then 0 else GainThrough(order, i - 1))
  }

  /** The choice of bestMoves: the largest prefix sum, then the largest slack, then the shortest prefix. */
  ghost predicate IsBest(order: seq<Step>, gm: int, m: nat) {
    if order == [] then gm == INT_MIN && m == 0
    else
      && m < |order|
      && gm == GainThrough(order, m)
      && (forall i :: 0 <= i < |order| ==> GainThrough(order, i) <= gm)
      && (forall i :: 0 <= i < |order| && GainThrough(order, i) == gm ==> order[i].minRest <= order[m].minRest)
      && (forall i :: 0 <= i < m && GainThrough(order, i) == gm ==> order[i].minRest < order[m].minRest)
  }

  lemma BestIsUnique(order: seq<Step>, gm: int, m: nat, gm': int, m': nat)
    requires IsBest(order, gm, m) && IsBest(order, gm', m')
    ensures gm == gm' && m == m'
  {
    if order != [] { assert GainThrough(order, m) == GainThrough(order, m'); }
  }

  // ----- passes

  ghost predicate IsPass(h: Csr, w: Window, s0: seq<bool>, p: Pass) {
    GreedyLog(h, w, s0, p.order) && Exhausted(h, w, s0, p.order) && IsBest(p.order, p.gm, p.m)
  }

  /** How many moves of a pass are kept. */
  function Kept(p: Pass): (k: nat)
    ensures k <= |p.order|
  {
    if p.gm >= 0 && p.m < |p.order| then p.m + 1 else |p.order|
  }

  /** Where a pass ends: rolled back to its best prefix, but only if that one does not lose (src/util/fm.cpp:60-62). */
  function EndSides(s0: seq<bool>, p: Pass): (r: seq<bool>)
    ensures |r| == |s0|
  {
    After(s0, p.order[..Kept(p)])
  }

  /** By how much a pass lowers the cut: the gains of the moves it keeps, and what these leave out. */
  ghost function PassGain(h: Csr, p: Pass): int {
    if p.order == [] then 0
    else GainThrough(p.order, Kept(p) - 1) + SurplusOf(h, Locked(p.order[..Kept(p)]), NEdges(h))
  }

  lemma {:induction false} GreedyPrefix(h: Csr, w: Window, s0: seq<bool>, order: seq<Step>, k: nat)
    requires GreedyLog(h, w, s0, order) && k <= |order|
    ensures GreedyLog(h, w, s0, order[..k])
    decreases |order|
  {
    if k == |order| {
      assert order[..k] == order;
    } else {
      var before := order[..|order| - 1];
      GreedyPrefix(h, w, s0, before, k);
      assert before[..k] == order[..k];
    }
  }

  /** Pass accounting: after every prefix of the log the cut has fallen by at least the sum of the gains; if the pins
      can be corrected, by that sum and what the moved nodes' gains leave out, which is nothing for distinct pins. */
  lemma {:induction false} PrefixAccounting(h: Csr, w: Window, s0: seq<bool>, order: seq<Step>, i: nat)
    requires GreedyLog(h, w, s0, order) && i < |order|
    ensures GainThrough(order, i) <= CutSize(h, s0) - CutSize(h, After(s0, order[..i + 1]))
    ensures CorrectablePins(h) ==>
      CutSize(h, s0) - CutSize(h, After(s0, order[..i + 1])) ==
      GainThrough(order, i) + SurplusOf(h, Locked(order[..i + 1]), NEdges(h))
    ensures DistinctPins(h) ==> GainThrough(order, i) == CutSize(h, s0) - CutSize(h, After(s0, order[..i + 1]))
    decreases i
  {
    hide Cut, Fits, Rest, ComputedGain, SurplusOf, CorrectablePins, DistinctPins;
    GreedyPrefix(h, w, s0, order, i + 1);
    var upto := order[..i + 1];
    assert upto[..|upto| - 1] == order[..i] && upto[|upto| - 1] == order[i];
    var sides, v := After(s0, order[..i]), order[i].node;
    assert GreedyChoice(h, w, sides, Locked(order[..i]), order[i]);
    if i > 0 { PrefixAccounting(h, w, s0, order, i - 1); }
    CountGainExact(h, sides, v);
    NoSurplus(h, Locked(upto), NEdges(h));
    if CorrectablePins(h) {
      ComputedGainFallsShort(h, sides, v);
      SurplusOfAdded(h, Locked(order[..i]), v, NEdges(h));
    }
  }

  /** No node moves twice in a pass, and exactly the locked nodes have changed sides. */
  lemma {:induction false} LogFlipsLocked(h: Csr, w: Window, s0: seq<bool>, order: seq<Step>)
    requires GreedyLog(h, w, s0, order)
    ensures |Locked(order)| == |order| && Locked(order) <= Below(NNodes(h))
    ensures forall v :: 0 <= v < |s0| ==> After(s0, order)[v] == (if v in Locked(order) then !s0[v] else s0[v])
    decreases |order|
  {
    hide ComputedGain, Fits, Rest;
    if order != [] { LogFlipsLocked(h, w, s0, order[..|order| - 1]); }
  }

  /** Prefix sums never exceed the number of edges, nor fall below its negative by more than the gains leave out. */
  lemma PrefixBounds(h: Csr, w: Window, s0: seq<bool>, order: seq<Step>, i: nat)
    requires GreedyLog(h, w, s0, order) && i < |order|
    ensures GainThrough(order, i) <= NEdges(h)
    ensures CorrectablePins(h) ==> -GainThrough(order, i) <= NEdges(h) + TotalSurplus(h)
    ensures DistinctPins(h) ==> -GainThrough(order, i) <= NEdges(h)
  {
    hide Cut, GreedyLog, CorrectablePins, DistinctPins;
    PrefixAccounting(h, w, s0, order, i);
    CutBound(h, s0, NEdges(h));
    CutBound(h, After(s0, order[..i + 1]), NEdges(h));
    GreedyPrefix(h, w, s0, order, i + 1);
    LogFlipsLocked(h, w, s0, order[..i + 1]);
    SurplusOfGrows(h, Locked(order[..i + 1]), Below(NNodes(h)), NEdges(h));
  }

  /** With this the prefix sums are in the range of int; for distinct pins only the number of edges counts. */
  ghost predicate SumsFit(h: Csr) { NEdges(h) + TotalSurplus(h) <= INT_MAX }

  /** A pass that moves every node ends its log with the cut it started from, so that it cannot raise the cut. With
      distinct pins its gains add up to 0 and its best prefix does not lose; otherwise they add up to what all gains
      together leave out. */
  lemma FullPassDoesNotLose(h: Csr, w: Window, s0: seq<bool>, p: Pass)
    requires WellFormed(h) && |s0| == NNodes(h) && IsPass(h, w, s0, p)
    requires p.order != [] && forall v: nat :: v < NNodes(h) ==> v in Locked(p.order)
    ensures CutSize(h, After(s0, p.order)) == CutSize(h, s0)
    ensures CutSize(h, EndSides(s0, p)) <= CutSize(h, s0)
    ensures CorrectablePins(h) ==>
      GainThrough(p.order, |p.order| - 1) + TotalSurplus(h) == 0 && p.gm + TotalSurplus(h) >= 0
    ensures DistinctPins(h) ==> GainThrough(p.order, |p.order| - 1) == 0 && p.gm >= 0
  {
    hide Cut, After, Locked, WellFormed, CorrectablePins, DistinctPins, SurplusOf, GreedyLog, Exhausted;
    assert p.order[..|p.order|] == p.order;
    FullLogReturns(h, w, s0, p.order);
    PrefixAccounting(h, w, s0, p.order, |p.order| - 1);
    PrefixAccounting(h, w, s0, p.order, p.m);
  }

  lemma FullLogReturns(h: Csr, w: Window, s0: seq<bool>, order: seq<Step>)
    requires WellFormed(h) && |s0| == NNodes(h) && GreedyLog(h, w, s0, order)
    requires forall v: nat :: v < NNodes(h) ==> v in Locked(order)
    ensures Locked(order) == Below(NNodes(h)) && CutSize(h, After(s0, order)) == CutSize(h, s0)
  {
    hide Cut, GreedyLog, After, Locked, WellFormed;
    LogFlipsLocked(h, w, s0, order);
    CutComplement(h, s0, After(s0, order), NEdges(h));
  }

  /** A pass raises the cut only when some node stayed unlocked because no unlocked node fits the window. */
  lemma RaisingPassStoppedEarly(h: Csr, w: Window, s0: seq<bool>, p: Pass)
    requires WellFormed(h) && |s0| == NNodes(h) && IsPass(h, w, s0, p)
    requires CutSize(h, EndSides(s0, p)) > CutSize(h, s0)
    ensures exists v: nat :: v < NNodes(h) && v !in Locked(p.order) && !Fits(h, w, After(s0, p.order), v)
  {
    hide Cut, GreedyLog, WellFormed;
    if forall v: nat :: v < NNodes(h) ==> v in Locked(p.order) {
      FullPassDoesNotLose(h, w, s0, p);
    } else {
      var v: nat :| v < NNodes(h) && v !in Locked(p.order);
      assert !Fits(h, w, After(s0, p.order), v);
    }
  }

  /** The same is behind a best prefix that loses more than all gains together leave out; with distinct pins that is
      every Gm < 0. */
  lemma NegativeBestStoppedEarly(h: Csr, w: Window, s0: seq<bool>, p: Pass)
    requires WellFormed(h) && |s0| == NNodes(h) && IsPass(h, w, s0, p)
    requires p.order != []
    requires (CorrectablePins(h) && p.gm + TotalSurplus(h) < 0) || (DistinctPins(h) && p.gm < 0)
    ensures exists v: nat :: v < NNodes(h) && v !in Locked(p.order) && !Fits(h, w, After(s0, p.order), v)
  {
    hide TotalSurplus, CorrectablePins, DistinctPins;
    if forall v: nat :: v < NNodes(h) ==> v in Locked(p.order) {
      FullPassDoesNotLose(h, w, s0, p);
    } else {
      var v: nat :| v < NNodes(h) && v !in Locked(p.order);
      assert !Fits(h, w, After(s0, p.order), v);
    }
  }

  /** What a pass does to the cut: with Gm >= 0 it lowers it by at least Gm, and by exactly what PassGain says if the
      pins can be corrected. With distinct pins that is Gm after a rollback, and the sum of all gains otherwise. */
  lemma PassAccounting(h: Csr, w: Window, s0: seq<bool>, p: Pass)
    requires IsPass(h, w, s0, p)
    ensures p.gm >= 0 ==> CutSize(h, EndSides(s0, p)) + p.gm <= CutSize(h, s0)
    ensures CorrectablePins(h) ==> CutSize(h, EndSides(s0, p)) == CutSize(h, s0) - PassGain(h, p)
    ensures DistinctPins(h) && p.order != [] ==>
      PassGain(h, p) == if p.gm >= 0 then p.gm else GainThrough(p.order, |p.order| - 1)
  {
    hide Cut, Fits, Rest, ComputedGain, CorrectablePins, DistinctPins, SurplusOf;
    if p.order != [] {
      PrefixAccounting(h, w, s0, p.order, Kept(p) - 1);
      NoSurplus(h, Locked(p.order[..Kept(p)]), NEdges(h));
    }
  }

  /** No pass with Gm >= 0 raises the cut. With Gm < 0 one does exactly when the gains of all its moves, and what they
      leave out, add up to less than 0; with distinct pins that is every such pass which moves something. */
  lemma PassNeverWorsensIff(h: Csr, w: Window, s0: seq<bool>, p: Pass)
    requires IsPass(h, w, s0, p)
    ensures p.gm >= 0 || p.order == [] ==> CutSize(h, EndSides(s0, p)) <= CutSize(h, s0)
    ensures CorrectablePins(h) && p.gm < 0 && p.order != [] ==>
      (CutSize(h, EndSides(s0, p)) <= CutSize(h, s0) <==>
       GainThrough(p.order, |p.order| - 1) + SurplusOf(h, Locked(p.order), NEdges(h)) >= 0)
    ensures DistinctPins(h) ==> (CutSize(h, EndSides(s0, p)) <= CutSize(h, s0) <==> p.gm >= 0 || p.order == [])
  {
    hide Cut, CorrectablePins, DistinctPins, SurplusOf, GreedyLog;
    assert p.order[..|p.order|] == p.order;
    if DistinctPins(h) { DistinctCorrectable(h); }
    PassAccounting(h, w, s0, p);
  }

  /** Seen from the start of a pass: no node that fits there has a larger gain than the best prefix. */
  lemma BestFromStart(h: Csr, w: Window, s0: seq<bool>, p: Pass, v: nat)
    requires IsPass(h, w, s0, p) && v < NNodes(h) && Fits(h, w, s0, v)
    ensures p.gm >= ComputedGain(h, s0, v) && p.order != [] && |s0| == NNodes(h)
  {
    hide Fits, Rest, ComputedGain;
    assert p.order == [] ==> v !in Locked(p.order) && After(s0, p.order) == s0;
    assert p.order != [];
    GreedyPrefix(h, w, s0, p.order, 1);
    var first := p.order[..1];
    assert first[..0] == [] && GreedyChoice(h, w, s0, {}, p.order[0]);
    assert GainThrough(p.order, 0) == p.order[0].gain;
  }

  /** If some node fits whose gain is not negative, the pass lowers the cut by that gain or more. */
  lemma GainfulStart(h: Csr, w: Window, s0: seq<bool>, p: Pass, v: nat)
    requires IsPass(h, w, s0, p)
    requires v < NNodes(h) && Fits(h, w, s0, v) && ComputedGain(h, s0, v) >= 0
    ensures p.gm >= ComputedGain(h, s0, v)
    ensures CutSize(h, EndSides(s0, p)) + ComputedGain(h, s0, v) <= CutSize(h, s0)
  {
    hide Cut, Fits, Rest, ComputedGain, IsPass;
    BestFromStart(h, w, s0, p, v);
    PassAccounting(h, w, s0, p);
  }

  /** Every pass that moves something ends inside the window, wherever it started. */
  lemma PassKeepsWindow(h: Csr, w: Window, s0: seq<bool>, p: Pass)
    requires IsPass(h, w, s0, p)
    ensures p.order != [] ==> InWindow(h, w, EndSides(s0, p))
    ensures p.order == [] ==> EndSides(s0, p) == s0
  {
    hide Gain, Rest;
    if p.order != [] {
      GreedyPrefix(h, w, s0, p.order, Kept(p));
    }
  }

  // ----- runs

  function FinalSides(s0: seq<bool>, run: seq<Pass>): (r: seq<bool>)
    ensures |r| == |s0|
  {
    if run == [] then s0 else EndSides(FinalSides(s0, run[..|run| - 1]), run[|run| - 1])
  }

  /** A run of FMAlgo::fm: passes one after the other, each but the last with Gm > 0. */
  ghost predicate IsRun(h: Csr, w: Window, s0: seq<bool>, run: seq<Pass>) {
    run == [] ||
    (var before := run[..|run| - 1];
     IsRun(h, w, s0, before) &&
     IsPass(h, w, FinalSides(s0, before), run[|run| - 1]) &&
     (before != [] ==> before[|before| - 1].gm > 0))
  }

  /** The first pass of a run starts from the initial sides, and only an improving one is followed by another. */
  lemma {:induction false} RunStart(h: Csr, w: Window, s0: seq<bool>, run: seq<Pass>)
    requires IsRun(h, w, s0, run) && run != []
    ensures IsPass(h, w, s0, run[0]) && (|run| > 1 ==> run[0].gm > 0)
    decreases |run|
  {
    hide IsPass, EndSides;
    if |run| > 1 { RunStart(h, w, s0, run[..|run| - 1]); }
  }

  /** The loop has stopped: the passes are used up or the last one did not improve. */
  predicate Stopped(run: seq<Pass>, passes: int) {
    |run| == (if passes < 0 then 0 else passes) || (run != [] && run[|run| - 1].gm <= 0)
  }

  ghost function RunGain(h: Csr, run: seq<Pass>): int {
    if run == [] then 0 else RunGain(h, run[..|run| - 1]) + PassGain(h, run[|run| - 1])
  }

  lemma {:induction false} RunAccounting(h: Csr, w: Window, s0: seq<bool>, run: seq<Pass>)
    requires IsRun(h, w, s0, run) && CorrectablePins(h)
    ensures CutSize(h, FinalSides(s0, run)) == CutSize(h, s0) - RunGain(h, run)
    decreases |run|
  {
    hide Cut, IsPass, EndSides, PassGain, CorrectablePins;
    if run != [] {
      RunAccounting(h, w, s0, run[..|run| - 1]);
      PassAccounting(h, w, FinalSides(s0, run[..|run| - 1]), run[|run| - 1]);
    }
  }

  /** Each pass after which the loop goes on lowers the cut by at least 1. */
  lemma {:induction false} ImprovingPasses(h: Csr, w: Window, s0: seq<bool>, run: seq<Pass>)
    requires IsRun(h, w, s0, run) && (run != [] ==> run[|run| - 1].gm > 0)
    ensures CutSize(h, FinalSides(s0, run)) + |run| <= CutSize(h, s0)
    decreases |run|
  {
    hide Cut, EndSides, GreedyLog, Exhausted;
    if run != [] {
      ImprovingPasses(h, w, s0, run[..|run| - 1]);
      PassAccounting(h, w, FinalSides(s0, run[..|run| - 1]), run[|run| - 1]);
    }
  }

  /** Only the last pass of a run can raise the cut: each pass before it lowers it. */
  lemma {:induction false} OnlyLastRaises(h: Csr, w: Window, s0: seq<bool>, run: seq<Pass>, i: nat)
    requires IsRun(h, w, s0, run) && i < |run| - 1
    ensures CutSize(h, FinalSides(s0, run[..i + 1])) < CutSize(h, FinalSides(s0, run[..i]))
    decreases |run|
  {
    hide Cut, EndSides, GreedyLog, Exhausted, IsBest;
    var before := run[..|run| - 1];
    if i < |before| - 1 {
      OnlyLastRaises(h, w, s0, before, i);
      assert before[..i + 1] == run[..i + 1] && before[..i] == run[..i];
    } else {
      assert before == run[..i + 1] && before[..|before| - 1] == run[..i];
      PassAccounting(h, w, FinalSides(s0, run[..i]), run[i]);
    }
  }

  /** A run that ends with a larger cut than it started with did so in a last pass with Gm < 0. */
  lemma RaisedByLast(h: Csr, w: Window, s0: seq<bool>, run: seq<Pass>)
    requires IsRun(h, w, s0, run) && CutSize(h, FinalSides(s0, run)) > CutSize(h, s0)
    ensures run != [] && run[|run| - 1].gm < 0 && run[|run| - 1].order != []
  {
    hide Cut, EndSides, IsPass;
    assert run != [];
    var before := run[..|run| - 1];
    ImprovingPasses(h, w, s0, before);
    PassNeverWorsensIff(h, w, FinalSides(s0, before), run[|run| - 1]);
  }

  /** When a run stops by itself, no move that fits at the start of its last pass has a larger gain than Gm <= 0. With
      distinct pins no such move lowers the cut. */
  lemma StoppedWithoutGain(h: Csr, w: Window, s0: seq<bool>, run: seq<Pass>, v: nat)
    requires IsRun(h, w, s0, run) && run != [] && run[|run| - 1].gm <= 0
    requires v < NNodes(h) && Fits(h, w, FinalSides(s0, run[..|run| - 1]), v)
    ensures ComputedGain(h, FinalSides(s0, run[..|run| - 1]), v) <= run[|run| - 1].gm
    ensures DistinctPins(h) ==> Gain(h, FinalSides(s0, run[..|run| - 1]), v) <= 0
  {
    hide Fits, ComputedGain, Gain, IsPass, EndSides, DistinctPins;
    var sides := FinalSides(s0, run[..|run| - 1]);
    BestFromStart(h, w, sides, run[|run| - 1], v);
    CountGainExact(h, sides, v);
  }

  /** Termination whatever the number of passes allowed: at most initial cut + 1 passes run. */
  lemma RunLength(h: Csr, w: Window, s0: seq<bool>, run: seq<Pass>)
    requires IsRun(h, w, s0, run)
    ensures |run| <= CutSize(h, s0) + 1
  {
    if run != [] { ImprovingPasses(h, w, s0, run[..|run| - 1]); }
  }

  /** Once more passes are allowed than the initial cut plus one, the limit plays no part: the run stops by itself. */
  lemma PassLimitIrrelevant(h: Csr, w: Window, s0: seq<bool>, run: seq<Pass>, passes: int, more: int)
    requires IsRun(h, w, s0, run)
    requires CutSize(h, s0) + 1 < passes && CutSize(h, s0) + 1 < more
    ensures Stopped(run, passes) <==> Stopped(run, more)
  {
    RunLength(h, w, s0, run);
  }

  /** Balance over a whole run: it ends inside the window if it started there or moved anything. */
  lemma {:induction false} RunKeepsWindow(h: Csr, w: Window, s0: seq<bool>, run: seq<Pass>)
    requires IsRun(h, w, s0, run)
    requires InWindow(h, w, s0) || exists i :: 0 <= i < |run| && run[i].order != []
    ensures InWindow(h, w, FinalSides(s0, run))
    decreases |run|
  {
    hide IsPass, EndSides;
    if run != [] {
      var before := run[..|run| - 1];
      PassKeepsWindow(h, w, FinalSides(s0, before), run[|run| - 1]);
      if run[|run| - 1].order == [] {
        if !InWindow(h, w, s0) {
          var i :| 0 <= i < |run| && run[i].order != [];
          assert before[i].order != [];
        }
        RunKeepsWindow(h, w, s0, before);
      }
    }
  }

  /** If the window admits every partition, each pass moves all nodes, so no run ends with a larger cut. */
  lemma {:induction false} WideWindowNeverWorsens(h: Csr, w: Window, s0: seq<bool>, run: seq<Pass>)
    requires WellFormed(h) && |s0| == NNodes(h) && IsRun(h, w, s0, run)
    requires forall v :: 0 <= v < NNodes(h) ==> h.weights[v] >= 0
    requires w.lower <= 0 && Total(h) <= w.upper
    ensures CutSize(h, FinalSides(s0, run)) <= CutSize(h, s0)
    decreases |run|
  {
    hide Cut, EndSides, GreedyLog, IsBest, WellFormed;
    if run != [] {
      var p := run[|run| - 1];
      var s := FinalSides(s0, run[..|run| - 1]);
      WideWindowNeverWorsens(h, w, s0, run[..|run| - 1]);
      forall v: nat ensures Fits(h, w, After(s, p.order), v) {
        var moved := Flip(After(s, p.order), v);
        AreasAddUp(h.weights, moved, NNodes(h));
        AreaNonNegative(h.weights, moved, false, NNodes(h));
        AreaNonNegative(h.weights, moved, true, NNodes(h));
      }
      if CutSize(h, EndSides(s, p)) > CutSize(h, s) { RaisingPassStoppedEarly(h, w, s, p); }
    }
  }
}
