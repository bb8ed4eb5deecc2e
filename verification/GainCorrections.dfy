/** What FMAlgo::gainUpdate does to the gains of the other pins after a move, edge by edge and pin by pin
    (src/util/fm.cpp:180-217). */
module GainCorrections {
  import opened Sequences
  import opened Hypergraphs
  import opened EdgeGains
  import opened RepeatedPins

  /** Every unlocked node sits at the index of its gain as countGain computes it. */
  ghost predicate GainsAre(h: Csr, sides: seq<bool>, d: int, ptrGain: seq<int>) {
    forall v: nat :: v < |ptrGain| && ptrGain[v] != -1 ==> d - ptrGain[v] == ComputedGain(h, sides, v)
  }

  ghost predicate SameLocks(p: seq<int>, q: seq<int>) {
    |p| == |q| && forall v :: 0 <= v < |p| ==> (p[v] == -1 <==> q[v] == -1)
  }

  /** The gain correction of src/util/fm.cpp:194-204; onTo says whether the pin is on the side moved to. */
  function GainDelta(to: int, from: int, onTo: bool): int {
    (if to == 0 then 1 else if to == 1 && onTo then -1 else 0) +
    (if from == 0 then -1 else if from == 1 && !onTo then 1 else 0)
  }

  /** The correction for one pin v of an edge, read off after node x has moved. */
  ghost function PinDelta(pins: seq<nat>, sides: seq<bool>, x: nat, v: nat): int {
    GainDelta(CountOn(pins, sides, Side(sides, x)) - 1, CountOn(pins, sides, !Side(sides, x)),
              Side(sides, v) == Side(sides, x))
  }

  /** The correction for all pins v of an edge. */
  ghost function EdgeDelta(pins: seq<nat>, sides: seq<bool>, x: nat, v: nat): int {
    Times(pins, v) * PinDelta(pins, sides, x, v)
  }

  /** The corrections of v's gain for a list of edges. */
  ghost function Corrections(h: Csr, sides: seq<bool>, x: nat, v: nat, edges: seq<nat>): int {
    if edges == [] then 0
    else Corrections(h, sides, x, v, edges[..|edges| - 1]) + EdgeDelta(Pins(h, edges[|edges| - 1]), sides, x, v)
  }

  // ----- one edge

  /** The counts of an edge on the side x leaves and on the side it moves to. */
  lemma CountsAfterFlip(pins: seq<nat>, s0: seq<bool>, x: nat, v: nat, b: bool)
    requires x < |s0| && v < |s0| && v != x && b == s0[x]
    ensures Side(Flip(s0, x), x) == !b && Side(Flip(s0, x), v) == s0[v]
    ensures CountOn(pins, s0, b) + CountOn(pins, s0, !b) == |pins|
    ensures CountOn(pins, Flip(s0, x), b) == CountOn(pins, s0, b) - Times(pins, x)
    ensures CountOn(pins, Flip(s0, x), !b) == CountOn(pins, s0, !b) + Times(pins, x)
    ensures CountOn(pins, Flip(s0, x), b) >= if s0[v] == b then Times(pins, v) else 0
    ensures s0[v] != b ==> CountOn(pins, s0, !b) >= Times(pins, v)
  {
    hide CountOn, Times;
    CountOnFlip(pins, s0, x, b);
    CountOnFlip(pins, s0, x, !b);
    CountOnAll(pins, s0);
    CountOnOwn(pins, s0, v);
    CountOnOwn(pins, Flip(s0, x), v);
  }

  /** The edge is read once for every occurrence of x. If x can be corrected for, that gives v the gain computed for the
      edge after the move. */
  lemma CorrectedExactly(pins: seq<nat>, s0: seq<bool>, x: nat, v: nat)
    requires x < |s0| && v < |s0| && v != x && x in pins && v in pins && CorrectableFor(pins, x)
    ensures Times(pins, x) * PinDelta(pins, Flip(s0, x), x, v) == Term(pins, Flip(s0, x), v) - Term(pins, s0, v)
  {
    TimesPositive(pins, x);
    TimesPositive(pins, v);
    TimesOfTwo(pins, x, v);
    CountsAfterFlip(pins, s0, x, v, s0[x]);
    hide CountOn, Times, Flip, Side;
    assert Times(pins, x) == 1 || (Times(pins, x) == 2 && |pins| == 3);
  }

  // ----- all edges

  lemma TermWithout(pins: seq<nat>, s0: seq<bool>, x: nat, v: nat)
    requires x < |s0| && v < |s0| && v != x && x !in pins
    ensures Term(pins, Flip(s0, x), v) == Term(pins, s0, v)
  {
    TimesPositive(pins, x);
    CountsAfterFlip(pins, s0, x, v, s0[x]);
    hide CountOn, Times, Flip, Side, GainTerm;
  }

  /** An edge without x, or without v, does not notice. */
  lemma TermElsewhere(pins: seq<nat>, s0: seq<bool>, x: nat, v: nat)
    requires x < |s0| && v < |s0| && v != x && (x !in pins || v !in pins)
    ensures EdgeTerm(pins, Flip(s0, x), v) == EdgeTerm(pins, s0, v)
  {
    TimesPositive(pins, v);
    hide Term, Times, Flip;
    if x !in pins { TermWithout(pins, s0, x, v); }
  }

  /** By how much the corrections of one edge, all of them, miss the change of the gain computed for it. */
  ghost function EdgeMiss(pins: seq<nat>, s0: seq<bool>, x: nat, v: nat): int {
    Times(pins, x) * EdgeDelta(pins, Flip(s0, x), x, v) - (EdgeTerm(pins, Flip(s0, x), v) - EdgeTerm(pins, s0, v))
  }

  lemma EdgeCorrected(pins: seq<nat>, s0: seq<bool>, x: nat, v: nat)
    requires x < |s0| && v < |s0| && v != x && (x in pins && v in pins ==> CorrectableFor(pins, x))
    ensures EdgeMiss(pins, s0, x, v) == 0
  {
    TimesPositive(pins, x);
    TimesPositive(pins, v);
    hide Term, PinDelta, Times, Flip, CorrectableFor;
    if x in pins && v in pins {
      CorrectedExactly(pins, s0, x, v);
      var m, t, delta := Times(pins, x), Times(pins, v), PinDelta(pins, Flip(s0, x), x, v);
      assert m * (t * delta) == t * (m * delta);
    } else {
      TermElsewhere(pins, s0, x, v);
    }
  }

  lemma TermBound(pins: seq<nat>, sides: seq<bool>, v: nat)
    ensures EdgeTerm(pins, sides, v) + Times(pins, v) >= 0 && EdgeTerm(pins, sides, v) <= Times(pins, v)
  {
    var t := Term(pins, sides, v);
    assert t == -1 || t == 0 || t == 1;
  }

  /** A sum on the way from one number to another stays between the same bounds. */
  lemma OnTheWay(start: int, d: int, m: nat, c: nat, lo: int, hi: int)
    requires lo <= start <= hi && lo <= start + m * d <= hi && c <= m
    ensures lo <= start + c * d <= hi
  {
    if d >= 0 { assert 0 <= c * d <= m * d; } else { assert 0 >= c * d >= m * d; }
  }

  /** After some of its readings, too, an edge adds no more than the occurrences of v to the gain. */
  lemma PartlyCorrected(pins: seq<nat>, s0: seq<bool>, x: nat, v: nat, c: nat)
    requires x < |s0| && v < |s0| && v != x && Correctable(pins) && c <= Times(pins, x)
    ensures var part := EdgeTerm(pins, s0, v) + c * EdgeDelta(pins, Flip(s0, x), x, v);
            part + Times(pins, v) >= 0 && part <= Times(pins, v)
  {
    EdgeCorrected(pins, s0, x, v);
    TermBound(pins, s0, v);
    TermBound(pins, Flip(s0, x), v);
    hide EdgeTerm, EdgeDelta, Times, Flip, Correctable;
    var k: int := Times(pins, v);
    OnTheWay(EdgeTerm(pins, s0, v), EdgeDelta(pins, Flip(s0, x), x, v), Times(pins, x), c, -k, k);
  }

  lemma {:induction false} CorrectionsRepeat(
    h: Csr, sides: seq<bool>, x: nat, v: nat, edges: seq<nat>, e: nat, m: nat)
    ensures Corrections(h, sides, x, v, edges + Repeat(e, m)) ==
            Corrections(h, sides, x, v, edges) + m * EdgeDelta(Pins(h, e), sides, x, v)
    decreases m
  {
    hide Pins, EdgeDelta;
    var all, t := edges + Repeat(e, m), EdgeDelta(Pins(h, e), sides, x, v);
    if m == 0 {
      assert all == edges;
    } else {
      assert m * t == (m - 1) * t + t;
      CorrectionsRepeat(h, sides, x, v, edges, e, m - 1);
      assert all[..|all| - 1] == edges + Repeat(e, m - 1);
      assert all[|all| - 1] == e;
    }
  }

  /** The same for the first k edges. */
  ghost function Miss(h: Csr, s0: seq<bool>, x: nat, v: nat, k: nat): int {
    if k == 0 then 0 else Miss(h, s0, x, v, k - 1) + EdgeMiss(Pins(h, k), s0, x, v)
  }

  lemma {:induction false} CorrectionsMiss(h: Csr, s0: seq<bool>, x: nat, v: nat, k: nat)
    ensures ListGain(h, s0, v, Adjacent(h, v, k)) + Corrections(h, Flip(s0, x), x, v, Adjacent(h, x, k)) ==
            ListGain(h, Flip(s0, x), v, Adjacent(h, v, k)) + Miss(h, s0, x, v, k)
    decreases k
  {
    hide Pins, EdgeTerm, EdgeDelta, ListGain, Flip, Times;
    var s1 := Flip(s0, x);
    if k > 0 {
      CorrectionsMiss(h, s0, x, v, k - 1);
      ListGainStep(h, s0, v, k);
      ListGainStep(h, s1, v, k);
      CorrectionsRepeat(h, s1, x, v, Adjacent(h, x, k - 1), k, Times(Pins(h, k), x));
    } else {
      NothingListed(h, s0, v);
      NothingListed(h, s1, v);
    }
  }

  /** All corrections together take the gain v had before the move to the one it has after it. */
  lemma CorrectionsExact(h: Csr, s0: seq<bool>, x: nat, v: nat, k: nat)
    requires x < |s0| && v < |s0| && v != x && CorrectablePins(h)
    ensures ListGain(h, s0, v, Adjacent(h, v, k)) + Corrections(h, Flip(s0, x), x, v, Adjacent(h, x, k)) ==
            ListGain(h, Flip(s0, x), v, Adjacent(h, v, k))
  {
    hide Pins, ListGain, Corrections, Adjacent, Flip, EdgeMiss, CorrectablePins;
    CorrectionsMiss(h, s0, x, v, k);
    NothingMissed(h, s0, x, v, k);
  }

  lemma {:induction false} NothingMissed(h: Csr, s0: seq<bool>, x: nat, v: nat, k: nat)
    requires x < |s0| && v < |s0| && v != x && CorrectablePins(h)
    ensures Miss(h, s0, x, v, k) == 0
    decreases k
  {
    hide Pins, EdgeMiss, CorrectableFor;
    if k > 0 {
      NothingMissed(h, s0, x, v, k - 1);
      assert Correctable(Pins(h, k));
      EdgeCorrected(Pins(h, k), s0, x, v);
    }
  }

  /** However many entries of its list have been read, v's gain stays within its degree. */
  lemma {:induction false} CorrectionsBound(h: Csr, s0: seq<bool>, x: nat, v: nat, k: nat, j: nat)
    requires x < |s0| && v < |s0| && v != x && CorrectablePins(h) && j <= |Adjacent(h, x, k)|
    ensures var part := ListGain(h, s0, v, Adjacent(h, v, k)) +
                        Corrections(h, Flip(s0, x), x, v, Adjacent(h, x, k)[..j]);
            -|Adjacent(h, v, k)| <= part <= |Adjacent(h, v, k)|
    decreases k
  {
    hide Pins, EdgeTerm, EdgeDelta, Correctable, ListGain, Flip, Times, Corrections;
    var s1 := Flip(s0, x);
    if k > 0 {
      var front, all := Adjacent(h, x, k - 1), Adjacent(h, x, k);
      assert all == front + Repeat(k, Times(Pins(h, k), x));
      ListGainStep(h, s0, v, k);
      if j <= |front| {
        assert all[..j] == front[..j];
        CorrectionsBound(h, s0, x, v, k - 1, j);
        PartlyCorrected(Pins(h, k), s0, x, v, 0);
      } else {
        var c := j - |front|;
        assert all[..j] == front + Repeat(k, c);
        CorrectionsRepeat(h, s1, x, v, front, k, c);
        CorrectionsExact(h, s0, x, v, k - 1);
        ListGainBound(h, s1, v, Adjacent(h, v, k - 1));
        PartlyCorrected(Pins(h, k), s0, x, v, c);
      }
    } else {
      NothingListed(h, s0, v);
      NothingCorrected(h, s1, x, v, Adjacent(h, x, 0)[..j]);
    }
  }

  lemma NothingCorrected(h: Csr, sides: seq<bool>, x: nat, v: nat, edges: seq<nat>)
    requires edges == []
    ensures Corrections(h, sides, x, v, edges) == 0
  {
  }

  // ----- the state of the gains

  /** Every unlocked node sits at the index of its gain before the move of x, corrected for the given edges; s1 are the
      sides after the move. */
  ghost predicate GainsPartly(
    h: Csr, s0: seq<bool>, s1: seq<bool>, x: nat, edges: seq<nat>, d: int, ptrGain: seq<int>)
  {
    forall v: nat :: v < |ptrGain| && ptrGain[v] != -1 ==>
      d - ptrGain[v] == ComputedGain(h, s0, v) + Corrections(h, s1, x, v, edges)
  }

  lemma GainsAtEnds(h: Csr, s0: seq<bool>, x: nat, d: int, ptrGain: seq<int>)
    requires x < |s0| == |ptrGain| && ptrGain[x] == -1 && CorrectablePins(h)
    ensures GainsPartly(h, s0, Flip(s0, x), x, [], d, ptrGain) <==> GainsAre(h, s0, d, ptrGain)
    ensures GainsPartly(h, s0, Flip(s0, x), x, Adjacent(h, x, NEdges(h)), d, ptrGain)
            <==> GainsAre(h, Flip(s0, x), d, ptrGain)
  {
    hide ListGain, Corrections, Adjacent, CorrectablePins, Flip;
    forall v: nat | v < |ptrGain| && ptrGain[v] != -1
      ensures Corrections(h, Flip(s0, x), x, v, []) == 0
      ensures ComputedGain(h, s0, v) + Corrections(h, Flip(s0, x), x, v, Adjacent(h, x, NEdges(h))) ==
              ComputedGain(h, Flip(s0, x), v)
    {
      NothingCorrected(h, Flip(s0, x), x, v, []);
      CorrectionsExact(h, s0, x, v, NEdges(h));
    }
  }

  /** What gainUpdate reads off for an edge after x has moved: the side moved to, the pins that were on it before the
      move if x is listed once, and the pins left on the other side. */
  ghost predicate ReadOff(pins: seq<nat>, sides: seq<bool>, x: nat, to: int, from: int, toBlock: bool) {
    && toBlock == Side(sides, x)
    && to == CountOn(pins, sides, toBlock) - 1
    && from == CountOn(pins, sides, !toBlock)
  }

  /** The correction of v's gain for the given pins. */
  ghost function Correction(pins: seq<nat>, sides: seq<bool>, to: int, from: int, toBlock: bool, v: nat): int {
    Times(pins, v) * GainDelta(to, from, Side(sides, v) == toBlock)
  }

  /** p is ptrGain with the unlocked nodes corrected for each of the given pins, and the same nodes locked. */
  ghost predicate Corrected(
    pins: seq<nat>, sides: seq<bool>, to: int, from: int, toBlock: bool, ptrGain: seq<int>, p: seq<int>)
  {
    && SameLocks(ptrGain, p)
    && forall v: nat :: v < |ptrGain| && ptrGain[v] != -1 ==>
         p[v] == ptrGain[v] - Correction(pins, sides, to, from, toBlock, v)
  }

  lemma OneMoreCorrected(
    h: Csr, sides: seq<bool>, x: nat, v: nat, edges: seq<nat>, j: nat, to: int, from: int, toBlock: bool)
    requires j < |edges| && ReadOff(Pins(h, edges[j]), sides, x, to, from, toBlock)
    ensures Corrections(h, sides, x, v, edges[..j + 1]) ==
            Corrections(h, sides, x, v, edges[..j]) + Correction(Pins(h, edges[j]), sides, to, from, toBlock, v)
  {
    hide Pins, Times, CountOn, GainDelta;
    assert edges[..j + 1][..j] == edges[..j];
  }

  /** With all pins of one more edge corrected, every gain is within its degree. */
  lemma CorrectionsFit(
    h: Csr, s0: seq<bool>, s1: seq<bool>, x: nat, edges: seq<nat>, j: nat, to: int, from: int, toBlock: bool, d: int,
    ptrGain: seq<int>)
    requires x < |s0| == |ptrGain| && s1 == Flip(s0, x) && ptrGain[x] == -1 && CorrectablePins(h)
    requires forall v :: 0 <= v < |s0| ==> |Adjacent(h, v, NEdges(h))| <= d
    requires edges == Adjacent(h, x, NEdges(h)) && j < |edges|
    requires ReadOff(Pins(h, edges[j]), s1, x, to, from, toBlock)
    requires GainsPartly(h, s0, s1, x, edges[..j], d, ptrGain)
    ensures forall v: nat :: v < |ptrGain| && ptrGain[v] != -1 ==>
      0 <= ptrGain[v] - Correction(Pins(h, edges[j]), s1, to, from, toBlock, v) <= 2 * d
    ensures forall p :: Corrected(Pins(h, edges[j]), s1, to, from, toBlock, ptrGain, p) ==>
      GainsPartly(h, s0, s1, x, edges[..j + 1], d, p)
  {
    hide Adjacent, ListGain, Flip, CorrectablePins, ReadOff, Pins, Correction, Corrections;
    forall v: nat | v < |ptrGain| && ptrGain[v] != -1
      ensures var moved := ptrGain[v] - Correction(Pins(h, edges[j]), s1, to, from, toBlock, v);
              0 <= moved <= 2 * d && d - moved == ComputedGain(h, s0, v) + Corrections(h, s1, x, v, edges[..j + 1])
    {
      CorrectionsBound(h, s0, x, v, NEdges(h), j + 1);
      OneMoreCorrected(h, s1, x, v, edges, j, to, from, toBlock);
    }
  }

  lemma OneMorePin(
    front: seq<nat>, y: nat, pins: seq<nat>, sides: seq<bool>, to: int, from: int, toBlock: bool, v: nat)
    requires front + [y] <= pins
    ensures Correction(front + [y], sides, to, from, toBlock, v) ==
            Correction(front, sides, to, from, toBlock, v) +
            if v == y then GainDelta(to, from, Side(sides, y) == toBlock) else 0
    ensures Times(front + [y], v) <= Times(pins, v)
  {
    var delta := GainDelta(to, from, Side(sides, v) == toBlock);
    var longer := front + [y];
    assert longer[..|front|] == front;
    assert Times(longer, v) == Times(front, v) + if v == y then 1 else 0;
    assert pins == longer + pins[|longer|..];
    TimesAppend(longer, pins[|longer|..], v);
    hide Times, GainDelta;
    assert (Times(front, v) + 1) * delta == Times(front, v) * delta + delta;
  }

  lemma IndexOnTheWay(
    front: seq<nat>, y: nat, pins: seq<nat>, sides: seq<bool>, to: int, from: int, toBlock: bool, hi: int, start: int)
    requires front + [y] <= pins && 0 <= start <= hi && 0 <= start - Correction(pins, sides, to, from, toBlock, y) <= hi
    ensures 0 <= start - Correction(front + [y], sides, to, from, toBlock, y) <= hi
  {
    OneMorePin(front, y, pins, sides, to, from, toBlock, y);
    hide Times, GainDelta;
    OnTheWay(start, -GainDelta(to, from, Side(sides, y) == toBlock), Times(pins, y), Times(front + [y], y), 0, hi);
  }

  /** One more pin. Its node's index on the way is between the one before the edge and the one after it. */
  lemma CorrectedOne(
    front: seq<nat>, y: nat, pins: seq<nat>, sides: seq<bool>, to: int, from: int, toBlock: bool, hi: int,
    ptrGain: seq<int>, p: seq<int>)
    requires Corrected(front, sides, to, from, toBlock, ptrGain, p) && y < |p| && front + [y] <= pins
    requires p[y] == -1 ||
             (0 <= ptrGain[y] <= hi && 0 <= ptrGain[y] - Correction(pins, sides, to, from, toBlock, y) <= hi)
    ensures p[y] == -1 ==> Corrected(front + [y], sides, to, from, toBlock, ptrGain, p)
    ensures var moved := p[y] - GainDelta(to, from, Side(sides, y) == toBlock);
            p[y] != -1 ==>
              0 <= moved <= hi && Corrected(front + [y], sides, to, from, toBlock, ptrGain, p[y := moved])
  {
    hide Times, GainDelta, Correction;
    forall v: nat
      ensures Correction(front + [y], sides, to, from, toBlock, v) ==
              Correction(front, sides, to, from, toBlock, v) +
              if v == y then GainDelta(to, from, Side(sides, y) == toBlock) else 0
    {
      OneMorePin(front, y, pins, sides, to, from, toBlock, v);
    }
    if p[y] != -1 { IndexOnTheWay(front, y, pins, sides, to, from, toBlock, hi, ptrGain[y]); }
  }

  /** Away from the critical counts the pins need not be looked at. */
  lemma NothingToCorrect(
    pins: seq<nat>, sides: seq<bool>, to: int, from: int, toBlock: bool, ptrGain: seq<int>)
    requires to > 1 && from > 1
    ensures Corrected(pins, sides, to, from, toBlock, ptrGain, ptrGain)
  {
    hide Times;
  }
}
