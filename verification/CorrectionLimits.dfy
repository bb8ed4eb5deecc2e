/** On which hypergraphs the corrections of FMAlgo::gainUpdate are right (src/util/fm.cpp:180-217). */
module CorrectionLimits {
  import opened Sequences
  import opened Hypergraphs
  import opened EdgeGains
  import opened RepeatedPins
  import opened GainCorrections

  function OneSide(n: nat): (s: seq<bool>)
    ensures |s| == n && forall v :: 0 <= v < n ==> !s[v]
  {
    seq(n, _ => false)
  }

  /** All nodes on one side but x. */
  function Alone(n: nat, x: nat): (s: seq<bool>)
    requires x < n
    ensures |s| == n && s[x] && Flip(s, x) == OneSide(n)
  {
    OneSide(n)[x := true]
  }

  lemma {:induction false} AllOnOneSide(pins: seq<nat>, n: nat)
    ensures CountOn(pins, OneSide(n), true) == 0
    decreases |pins|
  {
    if pins != [] { AllOnOneSide(pins[..|pins| - 1], n); }
  }

  lemma {:induction false} OtherPin(pins: seq<nat>, x: nat)
    requires Times(pins, x) != |pins|
    ensures exists v :: v in pins && v != x
    decreases |pins|
  {
    var front, last := pins[..|pins| - 1], pins[|pins| - 1];
    if last != x {
      assert last in pins;
    } else {
      OtherPin(front, x);
      var v :| v in front && v != x;
      assert v in pins;
    }
  }

  /** x is listed more than once, beside v and yet another pin. */
  ghost predicate Crowded(pins: seq<nat>, x: nat, v: nat) {
    v in pins && Times(pins, x) >= 2 && |pins| >= Times(pins, x) + 2
  }

  lemma EdgeMissFactored(pins: seq<nat>, s0: seq<bool>, x: nat, v: nat)
    ensures EdgeMiss(pins, s0, x, v) ==
      Times(pins, v) * (Times(pins, x) * PinDelta(pins, Flip(s0, x), x, v) - Term(pins, Flip(s0, x), v) +
                        Term(pins, s0, v))
  {
    hide Times, PinDelta, Term, Flip;
    var m, k, d := Times(pins, x), Times(pins, v), PinDelta(pins, Flip(s0, x), x, v);
    assert m * (k * d) == k * (m * d);
  }

  /** x leaves all others behind. */
  lemma MissOnLeaving(pins: seq<nat>, n: nat, x: nat, v: nat)
    requires x < n && v < n && v != x
    ensures var miss := EdgeMiss(pins, OneSide(n), x, v);
            if v !in pins || Times(pins, x) <= 1 then miss == 0
            else if Crowded(pins, x, v) then miss == 0 - Times(pins, v)
            else miss == Times(pins, x) - 2
  {
    var s0 := OneSide(n);
    if v !in pins || Times(pins, x) <= 1 {
      EdgeCorrected(pins, s0, x, v);
    } else {
      AllOnOneSide(pins, n);
      TimesPositive(pins, v);
      TimesOfTwo(pins, x, v);
      CountsAfterFlip(pins, s0, x, v, false);
      EdgeMissFactored(pins, s0, x, v);
      hide CountOn, Times, Flip, Side, EdgeMiss;
      assert Term(pins, s0, v) == -1;
      if Crowded(pins, x, v) {
        assert PinDelta(pins, Flip(s0, x), x, v) == 0 && Term(pins, Flip(s0, x), v) == 0;
      } else {
        assert PinDelta(pins, Flip(s0, x), x, v) == 1 && Term(pins, Flip(s0, x), v) == 1;
      }
    }
  }

  /** x joins all others. */
  lemma MissOnJoining(pins: seq<nat>, n: nat, x: nat, v: nat)
    requires x < n && v < n && v != x
    ensures var miss := EdgeMiss(pins, Alone(n, x), x, v);
            if v !in pins || Times(pins, x) <= 1 then miss == 0
            else if Crowded(pins, x, v) then miss < 0
            else miss == 2 - Times(pins, x)
  {
    var s0 := Alone(n, x);
    if v !in pins || Times(pins, x) <= 1 {
      EdgeCorrected(pins, s0, x, v);
    } else {
      AllOnOneSide(pins, n);
      TimesPositive(pins, v);
      TimesOfTwo(pins, x, v);
      CountsAfterFlip(pins, s0, x, v, true);
      EdgeMissFactored(pins, s0, x, v);
      hide CountOn, Times, Flip, Side, EdgeMiss;
      assert PinDelta(pins, Flip(s0, x), x, v) == -1 && Term(pins, Flip(s0, x), v) == -1;
      assert Term(pins, s0, v) == if Crowded(pins, x, v) then 0 else 1;
      Joined(Times(pins, x), Times(pins, v), Term(pins, s0, v), EdgeMiss(pins, s0, x, v));
    }
  }

  lemma Joined(m: int, k: int, t0: int, miss: int)
    requires m >= 2 && k >= 1 && miss == k * (m * -1 - -1 + t0)
    ensures t0 == 0 ==> miss < 0
    ensures k == 1 && t0 == 1 ==> miss == 2 - m
  {
    if t0 == 0 { assert k * (m - 1) > 0; }
  }

  /** Leaving and joining together never miss upwards, and downwards if some edge is crowded. */
  lemma {:induction false} MissBothWays(h: Csr, n: nat, x: nat, v: nat, k: nat)
    requires x < n && v < n && v != x
    ensures var both := Miss(h, OneSide(n), x, v, k) + Miss(h, Alone(n, x), x, v, k);
            both <= 0 && ((exists e :: 1 <= e <= k && Crowded(Pins(h, e), x, v)) ==> both < 0)
    decreases k
  {
    hide Pins, EdgeMiss, Crowded, Alone, OneSide, Times;
    if k > 0 {
      MissBothWays(h, n, x, v, k - 1);
      MissOnLeaving(Pins(h, k), n, x, v);
      MissOnJoining(Pins(h, k), n, x, v);
      CrowdedTimes(Pins(h, k), x, v);
    }
  }

  lemma CrowdedTimes(pins: seq<nat>, x: nat, v: nat)
    ensures Crowded(pins, x, v) ==> v in pins && Times(pins, v) >= 1 && Times(pins, x) >= 2
  {
    TimesPositive(pins, v);
  }

  /** Without crowded edges leaving alone misses upwards, if it misses anything. */
  lemma {:induction false} MissLeaving(h: Csr, n: nat, x: nat, v: nat, k: nat)
    requires x < n && v < n && v != x && forall e :: 1 <= e <= k ==> !Crowded(Pins(h, e), x, v)
    ensures Miss(h, OneSide(n), x, v, k) >= 0
    ensures (exists e :: 1 <= e <= k && v in Pins(h, e) && Times(Pins(h, e), x) >= 3) ==>
      Miss(h, OneSide(n), x, v, k) > 0
    decreases k
  {
    hide Pins, EdgeMiss, Crowded, OneSide, Times;
    if k > 0 {
      MissLeaving(h, n, x, v, k - 1);
      MissOnLeaving(Pins(h, k), n, x, v);
    }
  }

  /** Whatever the sides and the node x that moves, every other node ends up with the gain computed after the move. */
  ghost predicate AlwaysCorrected(h: Csr) {
    forall s0: seq<bool>, x: nat, v: nat :: |s0| == NNodes(h) && x < NNodes(h) && v < NNodes(h) && v != x ==>
      ComputedGain(h, s0, v) + Corrections(h, Flip(s0, x), x, v, Adjacent(h, x, NEdges(h))) ==
      ComputedGain(h, Flip(s0, x), v)
  }

  lemma CorrectedMissesNothing(h: Csr, s0: seq<bool>, x: nat, v: nat)
    requires AlwaysCorrected(h) && |s0| == NNodes(h) && x < NNodes(h) && v < NNodes(h) && v != x
    ensures Miss(h, s0, x, v, NEdges(h)) == 0
  {
    hide ListGain, Corrections, Adjacent, Flip, Miss;
    CorrectionsMiss(h, s0, x, v, NEdges(h));
  }

  lemma Miscorrected(h: Csr, e: nat, x: nat, v: nat)
    requires WellFormed(h) && 1 <= e <= NEdges(h) && x < NNodes(h) && v < NNodes(h) && v != x
    requires v in Pins(h, e) && !CorrectableFor(Pins(h, e), x)
    ensures !AlwaysCorrected(h)
  {
    hide Pins, AlwaysCorrected, WellFormed, Crowded, Miss, Times;
    var n, k := NNodes(h), NEdges(h);
    if AlwaysCorrected(h) {
      CorrectedMissesNothing(h, OneSide(n), x, v);
      CorrectedMissesNothing(h, Alone(n, x), x, v);
      MissBothWays(h, n, x, v, k);
      MissLeaving(h, n, x, v, k);
      NotCrowded(Pins(h, e), x, v);
      assert false;
    }
  }

  lemma NotCrowded(pins: seq<nat>, x: nat, v: nat)
    requires v in pins && v != x && !CorrectableFor(pins, x)
    ensures Crowded(pins, x, v) || Times(pins, x) >= 3
  {
    TimesPositive(pins, v);
    TimesOfTwo(pins, x, v);
  }

  lemma UncorrectableEdge(pins: seq<nat>, x: nat)
    requires !CorrectableFor(pins, x)
    ensures x in pins && exists v :: v in pins && v != x
  {
    TimesPositive(pins, x);
    OtherPin(pins, x);
  }

  lemma UncorrectableMiscorrected(h: Csr)
    requires WellFormed(h) && !CorrectablePins(h)
    ensures !AlwaysCorrected(h)
  {
    hide AlwaysCorrected, CorrectableFor;
    var e: nat, x: nat :| !CorrectableFor(Pins(h, e), x);
    UncorrectableEdge(Pins(h, e), x);
    var v: nat :| v in Pins(h, e) && v != x;
    PinsSlice(h, e);
    Miscorrected(h, e, x, v);
  }

  /** The corrections of gainUpdate are right for every move exactly when no edge lists a node twice, unless it is the
      only one or the edge has three pins: wrong corrections of several edges never cancel out for all moves. */
  lemma CorrectionsExactIff(h: Csr)
    requires WellFormed(h)
    ensures AlwaysCorrected(h) <==> CorrectablePins(h)
  {
    hide WellFormed, CorrectablePins, ListGain, Corrections, Adjacent, Flip;
    if CorrectablePins(h) {
      forall s0: seq<bool>, x: nat, v: nat | |s0| == NNodes(h) && x < NNodes(h) && v < NNodes(h) && v != x
        ensures ComputedGain(h, s0, v) + Corrections(h, Flip(s0, x), x, v, Adjacent(h, x, NEdges(h))) ==
                ComputedGain(h, Flip(s0, x), v)
      {
        CorrectionsExact(h, s0, x, v, NEdges(h));
      }
    } else {
      UncorrectableMiscorrected(h);
    }
  }
}
