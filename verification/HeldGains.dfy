/** The gain buckets of a pass as a function of its moves (src/util/fm.cpp:36-58 and 180-217): which nodes a bucket
    holds and in which order, on any hypergraph, up to the first index that leaves the buckets. */
module HeldGains {
  import opened Sequences
  import opened Hypergraphs
  import opened EdgeGains
  import opened RepeatedPins
  import opened FmRuns
  import opened GainBuckets
  import opened GainCorrections

  function Empty(d: nat): (b: Held)
    ensures b.Held? && b.ptrGain == [] && |b.gain| == 2 * d + 1 && forall i :: 0 <= i < |b.gain| ==> b.gain[i] == []
  {
    Held(seq(2 * d + 1, _ => []), [])
  }

  /** The first k nodes, each put in front of the bucket of its gain. */
  ghost function Initial(h: Csr, sides: seq<bool>, d: nat, k: nat): Held {
    if k == 0 then Empty(d)
    else if Initial(h, sides, d, k - 1).Outside? then Outside
    else
      var b := Initial(h, sides, d, k - 1);
      Put(Held(b.gain, b.ptrGain + [-1]), k - 1, d - ComputedGain(h, sides, k - 1))
  }

  /** After the loop over the pins of an edge. */
  function AfterPins(b: Held, pins: seq<nat>, sides: seq<bool>, to: int, from: int, toBlock: bool): Held {
    if pins == [] then b
    else
      var last := pins[|pins| - 1];
      Moved(AfterPins(b, pins[..|pins| - 1], sides, to, from, toBlock), last,
            GainDelta(to, from, Side(sides, last) == toBlock))
  }

  /** After one round of gainUpdate. */
  function AfterEdge(b: Held, pins: seq<nat>, sides: seq<bool>, x: nat): Held {
    var to, from := CountOn(pins, sides, Side(sides, x)) - 1, CountOn(pins, sides, !Side(sides, x));
    if to <= 1 || from <= 1 then AfterPins(b, pins, sides, to, from, Side(sides, x)) else b
  }

  /** After the rounds over the given edges. */
  function AfterEdges(h: Csr, b: Held, sides: seq<bool>, x: nat, edges: seq<nat>): Held {
    if edges == [] then b
    else AfterEdge(AfterEdges(h, b, sides, x, edges[..|edges| - 1]), Pins(h, edges[|edges| - 1]), sides, x)
  }

  /** After the moves of a log that started from the sides s0. */
  ghost function Holding(h: Csr, s0: seq<bool>, d: nat, order: seq<Step>): Held {
    if order == [] then Initial(h, s0, d, NNodes(h))
    else
      var x := order[|order| - 1].node;
      AfterEdges(h, Taken(Holding(h, s0, d, order[..|order| - 1]), x), After(s0, order), x, Adjacent(h, x, NEdges(h)))
  }

  lemma InitialStart(h: Csr, sides: seq<bool>, d: nat, gain: seq<seq<nat>>)
    requires |gain| == 2 * d + 1 && forall i :: 0 <= i < |gain| ==> gain[i] == []
    ensures Held(gain, []) == Initial(h, sides, d, 0)
  {
    assert gain == Empty(d).gain;
  }

  lemma InitialStep(h: Csr, sides: seq<bool>, d: nat, k: nat)
    requires Initial(h, sides, d, k).Held?
    ensures var b := Initial(h, sides, d, k);
            Initial(h, sides, d, k + 1) == Put(Held(b.gain, b.ptrGain + [-1]), k, d - ComputedGain(h, sides, k))
  {
  }

  lemma NoPinsYet(b: Held, pins: seq<nat>, sides: seq<bool>, to: int, from: int, toBlock: bool)
    requires pins == []
    ensures AfterPins(b, pins, sides, to, from, toBlock) == b
  {
  }

  lemma PinsStep(b: Held, front: seq<nat>, y: nat, sides: seq<bool>, to: int, from: int, toBlock: bool)
    ensures AfterPins(b, front + [y], sides, to, from, toBlock) ==
            Moved(AfterPins(b, front, sides, to, from, toBlock), y, GainDelta(to, from, Side(sides, y) == toBlock))
  {
    assert (front + [y])[..|front|] == front;
  }

  lemma NoEdgesYet(h: Csr, b: Held, sides: seq<bool>, x: nat, edges: seq<nat>)
    requires edges == []
    ensures AfterEdges(h, b, sides, x, edges) == b
  {
  }

  lemma EdgesStep(h: Csr, b: Held, sides: seq<bool>, x: nat, edges: seq<nat>, j: nat)
    requires j < |edges|
    ensures AfterEdges(h, b, sides, x, edges[..j + 1]) ==
            AfterEdge(AfterEdges(h, b, sides, x, edges[..j]), Pins(h, edges[j]), sides, x)
  {
    assert edges[..j + 1][..j] == edges[..j];
  }

  // ----- what leaves the buckets stays outside

  lemma {:induction false} PinsOutside(
    b: Held, pins: seq<nat>, sides: seq<bool>, to: int, from: int, toBlock: bool, k: nat)
    requires k <= |pins| && AfterPins(b, pins[..k], sides, to, from, toBlock).Outside?
    ensures AfterPins(b, pins, sides, to, from, toBlock).Outside?
    decreases |pins|
  {
    if k < |pins| {
      assert pins[..|pins| - 1][..k] == pins[..k];
      PinsOutside(b, pins[..|pins| - 1], sides, to, from, toBlock, k);
    } else {
      assert pins[..k] == pins;
    }
  }

  lemma {:induction false} NothingOutside(
    pins: seq<nat>, sides: seq<bool>, to: int, from: int, toBlock: bool)
    ensures AfterPins(Outside, pins, sides, to, from, toBlock).Outside?
    decreases |pins|
  {
    if pins != [] { NothingOutside(pins[..|pins| - 1], sides, to, from, toBlock); }
  }

  lemma {:induction false} EdgesOutside(h: Csr, b: Held, sides: seq<bool>, x: nat, edges: seq<nat>, k: nat)
    requires k <= |edges| && AfterEdges(h, b, sides, x, edges[..k]).Outside?
    ensures AfterEdges(h, b, sides, x, edges).Outside?
    decreases |edges|
  {
    hide Pins, AfterPins;
    if k < |edges| {
      assert edges[..|edges| - 1][..k] == edges[..k];
      EdgesOutside(h, b, sides, x, edges[..|edges| - 1], k);
      var pins := Pins(h, edges[|edges| - 1]);
      NothingOutside(pins, sides, CountOn(pins, sides, Side(sides, x)) - 1, CountOn(pins, sides, !Side(sides, x)),
                     Side(sides, x));
    } else {
      assert edges[..k] == edges;
    }
  }

  lemma {:induction false} HoldingOutside(h: Csr, s0: seq<bool>, d: nat, order: seq<Step>, k: nat)
    requires k <= |order| && Holding(h, s0, d, order[..k]).Outside?
    ensures Holding(h, s0, d, order).Outside?
    decreases |order|
  {
    hide AfterEdges, Initial;
    if k < |order| {
      assert order[..|order| - 1][..k] == order[..k];
      HoldingOutside(h, s0, d, order[..|order| - 1], k);
      var x := order[|order| - 1].node;
      var edges := Adjacent(h, x, NEdges(h));
      OutsideEdges(h, After(s0, order), x, edges[..0]);
      EdgesOutside(h, Outside, After(s0, order), x, edges, 0);
    } else {
      assert order[..k] == order;
    }
  }

  lemma OutsideEdges(h: Csr, sides: seq<bool>, x: nat, edges: seq<nat>)
    requires edges == []
    ensures AfterEdges(h, Outside, sides, x, edges).Outside?
  {
  }

  // ----- on any hypergraph: while inside, every unlocked node is in its one bucket

  lemma {:induction false} InitialInBuckets(h: Csr, sides: seq<bool>, d: nat, k: nat)
    requires k <= |sides| && forall v :: 0 <= v < k ==> |Adjacent(h, v, NEdges(h))| <= d
    ensures InBuckets(k, d, Initial(h, sides, d, k)) && GainsAre(h, sides, d, Initial(h, sides, d, k).ptrGain)
    ensures forall v :: 0 <= v < k ==> Initial(h, sides, d, k).ptrGain[v] != -1
    decreases k
  {
    hide Adjacent, ListGain, Buckets;
    if k == 0 {
      EmptyBuckets(d, Empty(d).gain);
    } else {
      InitialInBuckets(h, sides, d, k - 1);
      var b := Initial(h, sides, d, k - 1);
      BucketsPart(k - 1, d, b.gain, b.ptrGain);
      OneMoreNode(k - 1, d, b.gain, b.ptrGain);
      ListGainBound(h, sides, k - 1, Adjacent(h, k - 1, NEdges(h)));
      PutKeeps(k, d, Held(b.gain, b.ptrGain + [-1]), k - 1, d - ComputedGain(h, sides, k - 1));
    }
  }

  /** One more pin: Corrected, as long as its index is not that of a locked node. */
  lemma CorrectedStep(
    front: seq<nat>, y: nat, sides: seq<bool>, to: int, from: int, toBlock: bool, ptrGain: seq<int>, p: seq<int>)
    requires Corrected(front, sides, to, from, toBlock, ptrGain, p) && y < |p|
    ensures p[y] == -1 ==> Corrected(front + [y], sides, to, from, toBlock, ptrGain, p)
    ensures var moved := p[y] - GainDelta(to, from, Side(sides, y) == toBlock);
            p[y] != -1 && moved != -1 ==> Corrected(front + [y], sides, to, from, toBlock, ptrGain, p[y := moved])
  {
    hide Times, GainDelta, Correction;
    forall v: nat
      ensures Correction(front + [y], sides, to, from, toBlock, v) ==
              Correction(front, sides, to, from, toBlock, v) +
              if v == y then GainDelta(to, from, Side(sides, y) == toBlock) else 0
    {
      OneMorePin(front, y, front + [y], sides, to, from, toBlock, v);
    }
  }

  lemma {:induction false} PinsInBuckets(
    n: nat, d: int, b: Held, pins: seq<nat>, sides: seq<bool>, to: int, from: int, toBlock: bool)
    requires InBuckets(n, d, b) && forall i :: 0 <= i < |pins| ==> pins[i] < n
    ensures var r := AfterPins(b, pins, sides, to, from, toBlock);
            r.Held? ==> InBuckets(n, d, r) && Corrected(pins, sides, to, from, toBlock, b.ptrGain, r.ptrGain)
    decreases |pins|
  {
    hide Buckets, Corrected, Moved, GainDelta;
    BucketsPart(n, d, b.gain, b.ptrGain);
    if pins == [] {
      NoPinsCorrected(sides, to, from, toBlock, b.ptrGain);
    } else {
      var front, last := pins[..|pins| - 1], pins[|pins| - 1];
      PinsInBuckets(n, d, b, front, sides, to, from, toBlock);
      var r := AfterPins(b, front, sides, to, from, toBlock);
      assert pins == front + [last];
      if r.Held? {
        BucketsPart(n, d, r.gain, r.ptrGain);
        MovedKeeps(n, d, r, last, GainDelta(to, from, Side(sides, last) == toBlock));
        CorrectedStep(front, last, sides, to, from, toBlock, b.ptrGain, r.ptrGain);
      } else {
        MovedOutside(last, GainDelta(to, from, Side(sides, last) == toBlock));
      }
    }
  }

  lemma MovedOutside(v: nat, delta: int)
    ensures Moved(Outside, v, delta) == Outside
  {
  }

  lemma NoPinsCorrected(sides: seq<bool>, to: int, from: int, toBlock: bool, ptrGain: seq<int>)
    ensures Corrected([], sides, to, from, toBlock, ptrGain, ptrGain)
  {
  }

  lemma {:induction false} EdgeInBuckets(h: Csr, d: int, b: Held, sides: seq<bool>, x: nat, e: nat)
    requires WellFormed(h) && InBuckets(NNodes(h), d, b)
    ensures var r := AfterEdge(b, Pins(h, e), sides, x);
            r.Held? ==> InBuckets(NNodes(h), d, r) && SameLocks(b.ptrGain, r.ptrGain)
  {
    hide Buckets, AfterPins, CountOn, Correction;
    var pins := Pins(h, e);
    if 1 <= e < |h.eptr| { PinsSlice(h, e); }
    hide WellFormed, Pins;
    PinsInBuckets(NNodes(h), d, b, pins, sides, CountOn(pins, sides, Side(sides, x)) - 1,
                  CountOn(pins, sides, !Side(sides, x)), Side(sides, x));
  }

  lemma {:induction false} EdgesInBuckets(h: Csr, d: int, b: Held, sides: seq<bool>, x: nat, edges: seq<nat>)
    requires WellFormed(h) && InBuckets(NNodes(h), d, b)
    ensures var r := AfterEdges(h, b, sides, x, edges);
            r.Held? ==> InBuckets(NNodes(h), d, r) && SameLocks(b.ptrGain, r.ptrGain)
    decreases |edges|
  {
    hide WellFormed, Buckets, Pins, AfterEdge;
    if edges != [] {
      var front, last := edges[..|edges| - 1], edges[|edges| - 1];
      EdgesInBuckets(h, d, b, sides, x, front);
      if AfterEdges(h, b, sides, x, front).Held? {
        EdgeInBuckets(h, d, AfterEdges(h, b, sides, x, front), sides, x, last);
      } else {
        assert edges[..|front|] == front;
        EdgesOutside(h, b, sides, x, edges, |front|);
      }
    }
  }

  // ----- if the pins can be corrected: never outside, and the gains are those of countGain

  lemma {:induction false} PinsInside(
    n: nat, d: int, b: Held, front: seq<nat>, pins: seq<nat>, sides: seq<bool>, to: int, from: int, toBlock: bool)
    requires InBuckets(n, d, b) && front <= pins && forall i :: 0 <= i < |pins| ==> pins[i] < n
    requires forall v: nat :: v < n && b.ptrGain[v] != -1 ==>
      0 <= b.ptrGain[v] - Correction(pins, sides, to, from, toBlock, v) <= 2 * d
    ensures AfterPins(b, front, sides, to, from, toBlock).Held?
    decreases |front|
  {
    hide Buckets, Moved, GainDelta, Correction;
    BucketsPart(n, d, b.gain, b.ptrGain);
    if front != [] {
      var shorter, last := front[..|front| - 1], front[|front| - 1];
      assert front == shorter + [last] && last == pins[|front| - 1];
      PinsInside(n, d, b, shorter, pins, sides, to, from, toBlock);
      PinsInBuckets(n, d, b, shorter, sides, to, from, toBlock);
      var r := AfterPins(b, shorter, sides, to, from, toBlock);
      BucketsPart(n, d, r.gain, r.ptrGain);
      CorrectedOne(shorter, last, pins, sides, to, from, toBlock, 2 * d, b.ptrGain, r.ptrGain);
      MovedKeeps(n, d, r, last, GainDelta(to, from, Side(sides, last) == toBlock));
    }
  }

  /** One more edge: the gains corrected for the first j entries become those corrected for one entry more. */
  lemma EdgeExact(h: Csr, s0: seq<bool>, s1: seq<bool>, d: int, b: Held, x: nat, edges: seq<nat>, j: nat)
    requires WellFormed(h) && CorrectablePins(h) && InBuckets(NNodes(h), d, b)
    requires x < |s0| == NNodes(h) && s1 == Flip(s0, x) && b.ptrGain[x] == -1
    requires forall v :: 0 <= v < |s0| ==> |Adjacent(h, v, NEdges(h))| <= d
    requires edges == Adjacent(h, x, NEdges(h)) && j < |edges|
    requires GainsPartly(h, s0, s1, x, edges[..j], d, b.ptrGain)
    ensures var r := AfterEdge(b, Pins(h, edges[j]), s1, x);
            InBuckets(NNodes(h), d, r) && SameLocks(b.ptrGain, r.ptrGain) &&
            GainsPartly(h, s0, s1, x, edges[..j + 1], d, r.ptrGain)
  {
    hide Buckets, AfterPins, CountOn, Correction, GainsPartly, Adjacent, CorrectablePins, Flip;
    BucketsPart(NNodes(h), d, b.gain, b.ptrGain);
    var pins := Pins(h, edges[j]);
    if 1 <= edges[j] < |h.eptr| { PinsSlice(h, edges[j]); }
    assert forall i :: 0 <= i < |pins| ==> pins[i] < NNodes(h);
    hide WellFormed, Pins;
    var toBlock := Side(s1, x);
    var to, from := CountOn(pins, s1, toBlock) - 1, CountOn(pins, s1, !toBlock);
    CorrectionsFit(h, s0, s1, x, edges, j, to, from, toBlock, d, b.ptrGain);
    if to <= 1 || from <= 1 {
      PinsInside(NNodes(h), d, b, pins, pins, s1, to, from, toBlock);
      PinsInBuckets(NNodes(h), d, b, pins, s1, to, from, toBlock);
    } else {
      NothingToCorrect(pins, s1, to, from, toBlock, b.ptrGain);
    }
  }

  lemma {:induction false} EdgesPartly(h: Csr, s0: seq<bool>, s1: seq<bool>, d: int, b: Held, x: nat, j: nat)
    requires WellFormed(h) && CorrectablePins(h) && InBuckets(NNodes(h), d, b)
    requires x < |s0| == NNodes(h) && s1 == Flip(s0, x) && b.ptrGain[x] == -1
    requires forall v :: 0 <= v < |s0| ==> |Adjacent(h, v, NEdges(h))| <= d
    requires j <= |Adjacent(h, x, NEdges(h))| && GainsPartly(h, s0, s1, x, [], d, b.ptrGain)
    ensures var edges := Adjacent(h, x, NEdges(h))[..j];
            var r := AfterEdges(h, b, s1, x, edges);
            InBuckets(NNodes(h), d, r) && SameLocks(b.ptrGain, r.ptrGain) &&
            GainsPartly(h, s0, s1, x, edges, d, r.ptrGain)
    decreases j
  {
    hide Buckets, GainsPartly, Adjacent, CorrectablePins, Flip, WellFormed, Pins, AfterEdge;
    var edges := Adjacent(h, x, NEdges(h));
    if j == 0 {
      assert edges[..j] == [];
    } else {
      EdgesPartly(h, s0, s1, d, b, x, j - 1);
      assert edges[..j][..j - 1] == edges[..j - 1];
      BucketsPart(NNodes(h), d, b.gain, b.ptrGain);
      EdgeExact(h, s0, s1, d, AfterEdges(h, b, s1, x, edges[..j - 1]), x, edges, j - 1);
    }
  }

  /** gainUpdate takes the gains that countGain computes for the sides before the move of x to those it computes for the
      sides after it, and never leaves the buckets. */
  lemma EdgesExact(h: Csr, sides: seq<bool>, d: int, b: Held, x: nat)
    requires WellFormed(h) && CorrectablePins(h) && InBuckets(NNodes(h), d, b)
    requires x < |sides| == NNodes(h) && b.ptrGain[x] == -1
    requires forall v :: 0 <= v < |sides| ==> |Adjacent(h, v, NEdges(h))| <= d
    requires GainsAre(h, Flip(sides, x), d, b.ptrGain)
    ensures var r := AfterEdges(h, b, sides, x, Adjacent(h, x, NEdges(h)));
            InBuckets(NNodes(h), d, r) && SameLocks(b.ptrGain, r.ptrGain) && GainsAre(h, sides, d, r.ptrGain)
  {
    hide Buckets, GainsPartly, GainsAre, Adjacent, CorrectablePins, WellFormed, AfterEdges;
    FlipTwice(sides, x, x);
    hide Flip;
    var edges, s0 := Adjacent(h, x, NEdges(h)), Flip(sides, x);
    BucketsPart(NNodes(h), d, b.gain, b.ptrGain);
    GainsAtEnds(h, s0, x, d, b.ptrGain);
    EdgesPartly(h, s0, sides, d, b, x, |edges|);
    assert edges[..|edges|] == edges;
    GainsAtEnds(h, s0, x, d, AfterEdges(h, b, sides, x, edges).ptrGain);
  }
}
