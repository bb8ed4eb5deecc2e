/** What FMAlgo does on any hypergraph, step by step: its log of moves, passes and runs are determined by the
    hypergraph, the window and the sides it starts from. Where the pins can be corrected they are those of FmRuns. */
module PickedRuns {
  import opened Sequences
  import opened Hypergraphs
  import opened EdgeGains
  import opened RepeatedPins
  import opened FmRuns
  import opened GainBuckets
  import opened GainCorrections
  import opened GreedyPicks
  import opened HeldGains

  /** The choice of maxGain: the first bucket with a node that fits, and in it the last of the nodes with most slack. */
  ghost predicate PickedAt(h: Csr, w: Window, sides: seq<bool>, gain: seq<seq<nat>>, b: nat, at: nat) {
    && b < |gain| && LastBest(h, w, sides, gain[b], at)
    && forall i :: 0 <= i < b ==> NoneFits(h, w, sides, gain[i])
  }

  ghost predicate PickedStep(h: Csr, w: Window, sides: seq<bool>, d: nat, held: Held, step: Step) {
    held.Held? && exists b: nat, at: nat ::
      PickedAt(h, w, sides, held.gain, b, at) &&
      step == Step(held.gain[b][at], d - b, Rest(h, w, sides, held.gain[b][at]))
  }

  ghost predicate PickedLog(h: Csr, w: Window, s0: seq<bool>, d: nat, order: seq<Step>) {
    order == [] ||
    (var before := order[..|order| - 1];
     PickedLog(h, w, s0, d, before) &&
     PickedStep(h, w, After(s0, before), d, Holding(h, s0, d, before), order[|order| - 1]))
  }

  /** No more moves: no node in the buckets fits, or an index has left them. */
  ghost predicate Ended(h: Csr, w: Window, s0: seq<bool>, d: nat, order: seq<Step>) {
    var held := Holding(h, s0, d, order);
    held.Held? ==> forall i :: 0 <= i < |held.gain| ==> NoneFits(h, w, After(s0, order), held.gain[i])
  }

  ghost predicate SumsInRange(order: seq<Step>) {
    forall i :: 0 <= i < |order| ==> INT_MIN <= GainThrough(order, i) <= INT_MAX
  }

  ghost predicate PickedPass(h: Csr, w: Window, s0: seq<bool>, d: nat, p: Pass) {
    && PickedLog(h, w, s0, d, p.order) && Ended(h, w, s0, d, p.order) && Holding(h, s0, d, p.order).Held?
    && SumsInRange(p.order) && IsBest(p.order, p.gm, p.m)
  }

  ghost predicate PickedRun(h: Csr, w: Window, s0: seq<bool>, d: nat, run: seq<Pass>) {
    run == [] ||
    (var before := run[..|run| - 1];
     PickedRun(h, w, s0, d, before) &&
     PickedPass(h, w, FinalSides(s0, before), d, run[|run| - 1]) &&
     (before != [] ==> before[|before| - 1].gm > 0))
  }

  lemma NoPasses(h: Csr, w: Window, s0: seq<bool>, d: nat)
    ensures PickedRun(h, w, s0, d, []) && FinalSides(s0, []) == s0
  {
  }

  lemma OnePassMore(h: Csr, w: Window, s0: seq<bool>, d: nat, run: seq<Pass>, p: Pass)
    requires PickedRun(h, w, s0, d, run) && PickedPass(h, w, FinalSides(s0, run), d, p)
    requires run != [] ==> run[|run| - 1].gm > 0
    ensures PickedRun(h, w, s0, d, run + [p]) && FinalSides(s0, run + [p]) == EndSides(FinalSides(s0, run), p)
  {
    hide PickedPass, EndSides;
    assert (run + [p])[..|run|] == run;
  }

  /** Every node of a log is locked. */
  lemma {:induction false} StepLocked(order: seq<Step>, i: nat)
    requires i < |order|
    ensures order[i].node in Locked(order)
    decreases |order|
  {
    if i < |order| - 1 { StepLocked(order[..|order| - 1], i); }
  }

  // ----- the moves are determined

  lemma StepUnique(h: Csr, w: Window, sides: seq<bool>, d: nat, held: Held, x: Step, y: Step)
    requires PickedStep(h, w, sides, d, held, x) && PickedStep(h, w, sides, d, held, y)
    ensures x == y
  {
    hide Fits, Rest;
    var b: nat, at: nat :| PickedAt(h, w, sides, held.gain, b, at) &&
      x == Step(held.gain[b][at], d - b, Rest(h, w, sides, held.gain[b][at]));
    var c: nat, to: nat :| PickedAt(h, w, sides, held.gain, c, to) &&
      y == Step(held.gain[c][to], d - c, Rest(h, w, sides, held.gain[c][to]));
    assert held.gain[b][at] in held.gain[b] && held.gain[c][to] in held.gain[c];
    assert b == c;
    assert at == to;
  }

  lemma {:induction false} PickedPrefix(h: Csr, w: Window, s0: seq<bool>, d: nat, order: seq<Step>, k: nat)
    requires PickedLog(h, w, s0, d, order) && k <= |order|
    ensures PickedLog(h, w, s0, d, order[..k])
    ensures k < |order| ==> PickedStep(h, w, After(s0, order[..k]), d, Holding(h, s0, d, order[..k]), order[k])
    decreases |order|
  {
    hide PickedStep, Holding, After;
    if k == |order| {
      assert order[..k] == order;
    } else {
      var before := order[..|order| - 1];
      PickedPrefix(h, w, s0, d, before, k);
      assert before[..k] == order[..k];
    }
  }

  lemma {:induction false} CommonPrefix(h: Csr, w: Window, s0: seq<bool>, d: nat, a: seq<Step>, b: seq<Step>, k: nat)
    requires PickedLog(h, w, s0, d, a) && PickedLog(h, w, s0, d, b) && k <= |a| && k <= |b|
    ensures a[..k] == b[..k]
    decreases k
  {
    hide PickedStep, Holding, After;
    if k > 0 {
      CommonPrefix(h, w, s0, d, a, b, k - 1);
      PickedPrefix(h, w, s0, d, a, k - 1);
      PickedPrefix(h, w, s0, d, b, k - 1);
      StepUnique(h, w, After(s0, a[..k - 1]), d, Holding(h, s0, d, a[..k - 1]), a[k - 1], b[k - 1]);
      assert a[..k] == a[..k - 1] + [a[k - 1]] && b[..k] == b[..k - 1] + [b[k - 1]];
    }
  }

  lemma StepFits(h: Csr, w: Window, sides: seq<bool>, d: nat, held: Held, step: Step)
    requires PickedStep(h, w, sides, d, held, step)
    ensures exists b :: 0 <= b < |held.gain| && step.node in held.gain[b] && Fits(h, w, sides, step.node)
  {
    hide Fits, Rest;
    var b: nat, at: nat :| PickedAt(h, w, sides, held.gain, b, at) &&
      step == Step(held.gain[b][at], d - b, Rest(h, w, sides, held.gain[b][at]));
    assert held.gain[b][at] in held.gain[b];
  }

  lemma EndedStops(h: Csr, w: Window, s0: seq<bool>, d: nat, order: seq<Step>, step: Step)
    requires Ended(h, w, s0, d, order)
    ensures !PickedStep(h, w, After(s0, order), d, Holding(h, s0, d, order), step)
  {
    hide Fits, Holding, After, PickedAt;
    if PickedStep(h, w, After(s0, order), d, Holding(h, s0, d, order), step) {
      StepFits(h, w, After(s0, order), d, Holding(h, s0, d, order), step);
    }
  }

  lemma EndedIsLongest(h: Csr, w: Window, s0: seq<bool>, d: nat, a: seq<Step>, b: seq<Step>)
    requires PickedLog(h, w, s0, d, a) && PickedLog(h, w, s0, d, b) && Ended(h, w, s0, d, a)
    ensures |b| <= |a| && b == a[..|b|]
  {
    hide PickedStep, Holding, After, Ended;
    if |b| <= |a| {
      CommonPrefix(h, w, s0, d, a, b, |b|);
      assert b[..|b|] == b;
    } else {
      CommonPrefix(h, w, s0, d, a, b, |a|);
      assert a[..|a|] == a;
      PickedPrefix(h, w, s0, d, b, |a|);
      EndedStops(h, w, s0, d, a, b[|a|]);
    }
  }

  /** From the same sides there is one log of a pass, and every other log of picks is the beginning of it. */
  lemma LogUnique(h: Csr, w: Window, s0: seq<bool>, d: nat, a: seq<Step>, b: seq<Step>)
    requires PickedLog(h, w, s0, d, a) && PickedLog(h, w, s0, d, b)
    requires Ended(h, w, s0, d, a) && Ended(h, w, s0, d, b)
    ensures a == b
  {
    hide PickedLog, Ended;
    EndedIsLongest(h, w, s0, d, a, b);
    EndedIsLongest(h, w, s0, d, b, a);
    assert a[..|a|] == a;
  }

  lemma PassUnique(h: Csr, w: Window, s0: seq<bool>, d: nat, p: Pass, q: Pass)
    requires PickedPass(h, w, s0, d, p) && PickedPass(h, w, s0, d, q)
    ensures p == q
  {
    hide PickedLog, Ended, Holding;
    LogUnique(h, w, s0, d, p.order, q.order);
    BestIsUnique(p.order, p.gm, p.m, q.gm, q.m);
  }

  lemma {:induction false} RunPrefix(h: Csr, w: Window, s0: seq<bool>, d: nat, run: seq<Pass>, k: nat)
    requires PickedRun(h, w, s0, d, run) && k < |run|
    ensures PickedRun(h, w, s0, d, run[..k]) && PickedPass(h, w, FinalSides(s0, run[..k]), d, run[k])
    ensures k > 0 ==> run[k - 1].gm > 0
    decreases |run|
  {
    hide PickedPass, EndSides;
    var before := run[..|run| - 1];
    if k < |before| {
      RunPrefix(h, w, s0, d, before, k);
      assert before[..k] == run[..k];
    }
  }

  lemma {:induction false} CommonPasses(h: Csr, w: Window, s0: seq<bool>, d: nat, a: seq<Pass>, b: seq<Pass>, k: nat)
    requires PickedRun(h, w, s0, d, a) && PickedRun(h, w, s0, d, b) && k <= |a| && k <= |b|
    ensures a[..k] == b[..k]
    decreases k
  {
    hide PickedPass, PickedRun, FinalSides;
    if k > 0 {
      CommonPasses(h, w, s0, d, a, b, k - 1);
      RunPrefix(h, w, s0, d, a, k - 1);
      RunPrefix(h, w, s0, d, b, k - 1);
      PassUnique(h, w, FinalSides(s0, a[..k - 1]), d, a[k - 1], b[k - 1]);
      assert a[..k] == a[..k - 1] + [a[k - 1]] && b[..k] == b[..k - 1] + [b[k - 1]];
    }
  }

  /** How the algorithm ends: with a run that has stopped within the limit; or undefined, with a run that has not
      stopped and a last log that leaves the buckets or int. */
  ghost predicate Outcome(
    h: Csr, w: Window, s0: seq<bool>, d: nat, passes: int, defined: bool, run: seq<Pass>, last: seq<Step>)
  {
    var sides := FinalSides(s0, run);
    && PickedRun(h, w, s0, d, run) && |run| <= (if passes < 0 then 0 else passes)
    && (defined <==> Stopped(run, passes)) && (defined ==> last == [])
    && (!defined ==> PickedLog(h, w, sides, d, last) && Ended(h, w, sides, d, last) &&
                     !(Holding(h, sides, d, last).Held? && SumsInRange(last)))
  }

  lemma OutcomeIsLongest(
    h: Csr, w: Window, s0: seq<bool>, d: nat, passes: int,
    da: bool, a: seq<Pass>, la: seq<Step>, db: bool, b: seq<Pass>, lb: seq<Step>)
    requires Outcome(h, w, s0, d, passes, da, a, la) && Outcome(h, w, s0, d, passes, db, b, lb)
    ensures |b| <= |a|
  {
    hide PickedRun, PickedLog, Ended, Holding, SumsInRange, FinalSides;
    if |b| > |a| {
      CommonPasses(h, w, s0, d, a, b, |a|);
      RunPrefix(h, w, s0, d, b, |a|);
      assert a[..|a|] == a;
      if !da { LogUnique(h, w, FinalSides(s0, a), d, la, b[|a|].order); }
    }
  }

  /** The whole algorithm is deterministic on any hypergraph, ties between nodes included. */
  lemma OutcomeUnique(
    h: Csr, w: Window, s0: seq<bool>, d: nat, passes: int,
    da: bool, a: seq<Pass>, la: seq<Step>, db: bool, b: seq<Pass>, lb: seq<Step>)
    requires Outcome(h, w, s0, d, passes, da, a, la) && Outcome(h, w, s0, d, passes, db, b, lb)
    ensures da == db && a == b && la == lb
  {
    hide PickedRun, PickedLog, Ended, Holding, SumsInRange, FinalSides;
    OutcomeIsLongest(h, w, s0, d, passes, da, a, la, db, b, lb);
    OutcomeIsLongest(h, w, s0, d, passes, db, b, lb, da, a, la);
    CommonPasses(h, w, s0, d, a, b, |a|);
    assert a[..|a|] == a && b[..|b|] == b;
    if !da { LogUnique(h, w, FinalSides(s0, a), d, la, lb); }
  }

  // ----- on any hypergraph

  ghost predicate DegreesWithin(h: Csr, d: nat) {
    forall v: nat :: v < NNodes(h) ==> |Adjacent(h, v, NEdges(h))| <= d
  }

  lemma {:induction false} PickedHolding(h: Csr, w: Window, s0: seq<bool>, d: nat, order: seq<Step>)
    requires WellFormed(h) && |s0| == NNodes(h) && DegreesWithin(h, d) && PickedLog(h, w, s0, d, order)
    ensures var held := Holding(h, s0, d, order);
            held.Held? ==> InBuckets(NNodes(h), d, held) && LockedAre(held.ptrGain, Locked(order))
    ensures |Locked(order)| == |order| && Locked(order) <= Below(NNodes(h))
    ensures order != [] ==> InWindow(h, w, After(s0, order))
    decreases |order|
  {
    hide WellFormed, Adjacent, Buckets, AfterEdges, Initial, Rest, InWindow, Taken, LockedAre, SameLocks, PickedStep;
    if order == [] {
      InitialInBuckets(h, s0, d, NNodes(h));
      NothingLocked(NNodes(h), d, Initial(h, s0, d, NNodes(h)));
    } else {
      var before, x := order[..|order| - 1], order[|order| - 1].node;
      PickedHolding(h, w, s0, d, before);
      var held := Holding(h, s0, d, before);
      StepIsHeld(h, w, After(s0, before), d, held, order[|order| - 1]);
      PickedIsUnlocked(h, w, After(s0, before), d, held, order[|order| - 1]);
      OneMoreLocked(NNodes(h), d, held, x, Locked(before));
      EdgesInBuckets(h, d, Taken(held, x), After(s0, order), x, Adjacent(h, x, NEdges(h)));
      if Holding(h, s0, d, order).Held? {
        SameAreLocked(Taken(held, x).ptrGain, Holding(h, s0, d, order).ptrGain, Locked(order));
      }
    }
  }

  lemma StepIsHeld(h: Csr, w: Window, sides: seq<bool>, d: nat, held: Held, step: Step)
    requires PickedStep(h, w, sides, d, held, step)
    ensures held.Held?
  {
  }

  lemma NothingLocked(n: nat, d: int, held: Held)
    requires InBuckets(n, d, held) && forall v :: 0 <= v < n ==> held.ptrGain[v] != -1
    ensures LockedAre(held.ptrGain, {})
  {
  }

  lemma OneMoreLocked(n: nat, d: int, held: Held, x: nat, locked: set<nat>)
    requires InBuckets(n, d, held) && x < n && held.ptrGain[x] != -1 && LockedAre(held.ptrGain, locked)
    ensures InBuckets(n, d, Taken(held, x)) && Taken(held, x).ptrGain == held.ptrGain[x := -1]
    ensures x !in locked && LockedAre(Taken(held, x).ptrGain, locked + {x})
  {
    TakenKeeps(n, d, held, x);
    hide Distinct, Taken;
  }

  lemma SameAreLocked(p: seq<int>, q: seq<int>, locked: set<nat>)
    requires LockedAre(p, locked) && SameLocks(p, q)
    ensures LockedAre(q, locked)
  {
  }

  /** A picked node sits in its own bucket. */
  lemma InItsBucket(n: nat, d: int, held: Held, b: nat, at: nat)
    requires InBuckets(n, d, held) && b < |held.gain| && at < |held.gain[b]|
    ensures held.gain[b][at] < n && held.ptrGain[held.gain[b][at]] == b
  {
    assert held.gain[b][at] in held.gain[b];
  }

  /** A log with as many steps as there are nodes leaves none in the buckets. */
  lemma AllPickedEnded(h: Csr, w: Window, s0: seq<bool>, d: nat, order: seq<Step>)
    requires WellFormed(h) && |s0| == NNodes(h) && DegreesWithin(h, d) && PickedLog(h, w, s0, d, order)
    requires |order| == NNodes(h)
    ensures Ended(h, w, s0, d, order)
  {
    hide WellFormed, DegreesWithin, PickedLog, Holding, After, Locked, Fits, Distinct;
    PickedHolding(h, w, s0, d, order);
    FullSet(Locked(order), NNodes(h));
    if Holding(h, s0, d, order).Held? { HeldAreUnlocked(NNodes(h), d, Holding(h, s0, d, order), Locked(order)); }
  }

  lemma HeldAreUnlocked(n: nat, d: int, held: Held, locked: set<nat>)
    requires InBuckets(n, d, held) && LockedAre(held.ptrGain, locked)
    ensures forall i :: 0 <= i < |held.gain| ==> forall v :: v in held.gain[i] ==> v < n && v !in locked
  {
    hide Distinct;
  }

  lemma LogStart(h: Csr, w: Window, s0: seq<bool>, d: nat)
    ensures PickedLog(h, w, s0, d, []) && Holding(h, s0, d, []) == Initial(h, s0, d, NNodes(h))
    ensures After(s0, []) == s0
  {
  }

  lemma NonePickedEnded(h: Csr, w: Window, s0: seq<bool>, d: nat, order: seq<Step>)
    requires var held := Holding(h, s0, d, order);
             held.Held? && forall i :: 0 <= i < |held.gain| ==> NoneFits(h, w, After(s0, order), held.gain[i])
    ensures Ended(h, w, s0, d, order)
  {
  }

  lemma OutsideEnded(h: Csr, w: Window, s0: seq<bool>, d: nat, order: seq<Step>)
    requires Holding(h, s0, d, order).Outside?
    ensures Ended(h, w, s0, d, order)
  {
  }

  lemma PickedIsUnlocked(h: Csr, w: Window, sides: seq<bool>, d: nat, held: Held, step: Step)
    requires PickedStep(h, w, sides, d, held, step) && InBuckets(NNodes(h), d, held)
    ensures step.node < NNodes(h) && held.ptrGain[step.node] == d - step.gain != -1 && Fits(h, w, sides, step.node)
  {
    hide Fits, Rest;
    var b: nat, at: nat :| PickedAt(h, w, sides, held.gain, b, at) &&
      step == Step(held.gain[b][at], d - b, Rest(h, w, sides, held.gain[b][at]));
    assert held.gain[b][at] in held.gain[b];
  }

  /** Every pass that moves something ends inside the window, wherever it started and however wrong its gains are. */
  lemma PickedPassKeepsWindow(h: Csr, w: Window, s0: seq<bool>, d: nat, p: Pass)
    requires WellFormed(h) && |s0| == NNodes(h) && DegreesWithin(h, d) && PickedPass(h, w, s0, d, p)
    ensures InWindow(h, w, EndSides(s0, p)) || (p.order == [] && EndSides(s0, p) == s0)
  {
    hide WellFormed, InWindow, PickedLog, Ended, Holding, After;
    PickedPrefix(h, w, s0, d, p.order, Kept(p));
    PickedHolding(h, w, s0, d, p.order[..Kept(p)]);
    if p.order == [] { assert After(s0, p.order[..Kept(p)]) == s0 by { NothingMoved(s0, p.order[..Kept(p)]); } }
  }

  lemma NothingMoved(s0: seq<bool>, order: seq<Step>)
    requires order == []
    ensures After(s0, order) == s0
  {
  }

  /** A run ends inside the window if it started there, on any hypergraph. */
  lemma {:induction false} PickedRunKeepsWindow(h: Csr, w: Window, s0: seq<bool>, d: nat, run: seq<Pass>)
    requires WellFormed(h) && |s0| == NNodes(h) && DegreesWithin(h, d) && PickedRun(h, w, s0, d, run)
    requires InWindow(h, w, s0)
    ensures InWindow(h, w, FinalSides(s0, run))
    decreases |run|
  {
    hide WellFormed, InWindow, PickedPass, DegreesWithin, EndSides;
    if run != [] {
      PickedRunKeepsWindow(h, w, s0, d, run[..|run| - 1]);
      PickedPassKeepsWindow(h, w, FinalSides(s0, run[..|run| - 1]), d, run[|run| - 1]);
    }
  }

  // ----- where the pins can be corrected

  /** The picks are greedy choices, and the buckets are never left. */
  lemma {:induction false} PickedIsGreedy(h: Csr, w: Window, s0: seq<bool>, d: nat, order: seq<Step>)
    requires WellFormed(h) && CorrectablePins(h) && |s0| == NNodes(h) && DegreesWithin(h, d)
    requires PickedLog(h, w, s0, d, order)
    ensures GreedyLog(h, w, s0, order)
    ensures var held := Holding(h, s0, d, order);
            InBuckets(NNodes(h), d, held) && LockedAre(held.ptrGain, Locked(order)) &&
            GainsAre(h, After(s0, order), d, held.ptrGain)
    decreases |order|
  {
    hide WellFormed, Adjacent, Buckets, AfterEdges, Initial, Rest, Fits, Taken, CorrectablePins, ComputedGain, Flip;
    hide LockedAre, SameLocks, PickedStep, GreedyChoice;
    if order == [] {
      InitialInBuckets(h, s0, d, NNodes(h));
      NothingLocked(NNodes(h), d, Initial(h, s0, d, NNodes(h)));
    } else {
      var before, x := order[..|order| - 1], order[|order| - 1].node;
      PickedIsGreedy(h, w, s0, d, before);
      var held := Holding(h, s0, d, before);
      PickedIsUnlocked(h, w, After(s0, before), d, held, order[|order| - 1]);
      PickedIsChosen(h, w, After(s0, before), d, held, Locked(before), order[|order| - 1]);
      OneMoreLocked(NNodes(h), d, held, x, Locked(before));
      BucketsPart(NNodes(h), d, held.gain, held.ptrGain);
      FlipTwice(After(s0, before), x, x);
      EdgesExact(h, After(s0, order), d, Taken(held, x), x);
      SameAreLocked(Taken(held, x).ptrGain, Holding(h, s0, d, order).ptrGain, Locked(order));
    }
  }

  lemma PickedIsChosen(h: Csr, w: Window, sides: seq<bool>, d: nat, held: Held, locked: set<nat>, step: Step)
    requires PickedStep(h, w, sides, d, held, step) && InBuckets(NNodes(h), d, held) && |sides| == NNodes(h)
    requires GainsAre(h, sides, d, held.ptrGain) && LockedAre(held.ptrGain, locked)
    ensures GreedyChoice(h, w, sides, locked, step)
  {
    hide Fits, Rest, Buckets, GainsAre, LockedAre, GreedyChoice, NoneFits;
    var b: nat, at: nat :| PickedAt(h, w, sides, held.gain, b, at) &&
      step == Step(held.gain[b][at], d - b, Rest(h, w, sides, held.gain[b][at]));
    PickIsGreedy(h, w, sides, d, held.gain, held.ptrGain, locked, b, at);
  }

  lemma EndedIsExhausted(h: Csr, w: Window, s0: seq<bool>, d: nat, order: seq<Step>)
    requires Ended(h, w, s0, d, order) && InBuckets(NNodes(h), d, Holding(h, s0, d, order))
    requires LockedAre(Holding(h, s0, d, order).ptrGain, Locked(order))
    ensures Exhausted(h, w, s0, order)
  {
    hide Fits, Buckets, LockedAre, Holding, After, Locked, NoneFits, Exhausted;
    NoPickIsExhausted(h, w, s0, order, d, Holding(h, s0, d, order).gain, Holding(h, s0, d, order).ptrGain);
  }

  /** A log of picks never leaves the buckets, nor its sums the range of int. */
  lemma PickedIsDefined(h: Csr, w: Window, s0: seq<bool>, d: nat, order: seq<Step>)
    requires WellFormed(h) && CorrectablePins(h) && SumsFit(h) && |s0| == NNodes(h) && DegreesWithin(h, d)
    requires PickedLog(h, w, s0, d, order)
    ensures Holding(h, s0, d, order).Held? && SumsInRange(order)
  {
    hide WellFormed, CorrectablePins, PickedLog, Holding, GreedyLog, DegreesWithin, TotalSurplus;
    PickedIsGreedy(h, w, s0, d, order);
    forall i | 0 <= i < |order| ensures INT_MIN <= GainThrough(order, i) <= INT_MAX {
      PrefixBounds(h, w, s0, order, i);
    }
  }

  lemma PickedPassIsPass(h: Csr, w: Window, s0: seq<bool>, d: nat, p: Pass)
    requires WellFormed(h) && CorrectablePins(h) && |s0| == NNodes(h) && DegreesWithin(h, d)
    requires PickedPass(h, w, s0, d, p)
    ensures IsPass(h, w, s0, p)
  {
    hide WellFormed, CorrectablePins, PickedLog, Holding, GreedyLog, DegreesWithin, Exhausted, Ended, IsBest;
    PickedIsGreedy(h, w, s0, d, p.order);
    EndedIsExhausted(h, w, s0, d, p.order);
  }

  /** Where the pins can be corrected the run of the algorithm is one of those that FmRuns is about. */
  lemma {:induction false} PickedRunIsRun(h: Csr, w: Window, s0: seq<bool>, d: nat, run: seq<Pass>)
    requires WellFormed(h) && CorrectablePins(h) && |s0| == NNodes(h) && DegreesWithin(h, d)
    requires PickedRun(h, w, s0, d, run)
    ensures IsRun(h, w, s0, run)
    decreases |run|
  {
    hide WellFormed, CorrectablePins, PickedPass, DegreesWithin, EndSides, IsPass;
    if run != [] {
      PickedRunIsRun(h, w, s0, d, run[..|run| - 1]);
      PickedPassIsPass(h, w, FinalSides(s0, run[..|run| - 1]), d, run[|run| - 1]);
    }
  }
}
