/** Gains edge by edge: what FMAlgo::countGain adds up (src/util/fm.cpp:111-121), how that relates to the gain by
    definition, and the adjacency lists it goes through. */
module EdgeGains {
  import opened Sequences
  import opened Hypergraphs

  function Int(b: bool): int { if b then 1 else 0 }

  /** The part of v's gain that one edge is responsible for. */
  ghost function EdgeGain(pins: seq<nat>, sides: seq<bool>, v: nat): int {
    Int(IsCut(pins, sides)) - Int(IsCut(pins, Flip(sides, v)))
  }

  /** What countGain adds for one entry of the adjacency list, from the pins on v's side and on the other one. */
  function GainTerm(own: int, other: int): int {
    Int(own == 1) - Int(other == 0)
  }

  ghost function Term(pins: seq<nat>, sides: seq<bool>, v: nat): int {
    GainTerm(CountOn(pins, sides, Side(sides, v)), CountOn(pins, sides, !Side(sides, v)))
  }

  /** What countGain adds for an edge altogether: one term for every occurrence of v among its pins. */
  ghost function EdgeTerm(pins: seq<nat>, sides: seq<bool>, v: nat): int {
    Times(pins, v) * Term(pins, sides, v)
  }

  function Repeat(x: nat, m: nat): (r: seq<nat>)
    ensures |r| == m && forall i :: 0 <= i < m ==> r[i] == x
  {
    if m == 0 then [] else Repeat(x, m - 1) + [x]
  }

  /** The adjacency list of v over the first k edges: edge e once for every occurrence of v among its pins. */
  ghost function Adjacent(h: Csr, v: nat, k: nat): seq<nat> {
    if k == 0 then [] else Adjacent(h, v, k - 1) + Repeat(k, Times(Pins(h, k), v))
  }

  /** The sum countGain computes over a list of edges. */
  ghost function ListGain(h: Csr, sides: seq<bool>, v: nat, edges: seq<nat>): int {
    if edges == [] then 0
    else ListGain(h, sides, v, edges[..|edges| - 1]) + Term(Pins(h, edges[|edges| - 1]), sides, v)
  }

  /** What countGain returns. */
  ghost function ComputedGain(h: Csr, sides: seq<bool>, v: nat): int {
    ListGain(h, sides, v, Adjacent(h, v, NEdges(h)))
  }

  // ----- countGain against the definition

  /** v occurs at most once, or the edge has another pin on v's side and one on the other side. */
  ghost predicate Counted(pins: seq<nat>, sides: seq<bool>, v: nat) {
    Times(pins, v) <= 1 ||
    (CountOn(pins, sides, !Side(sides, v)) > 0 && CountOn(pins, sides, Side(sides, v)) > Times(pins, v))
  }

  lemma TermAgainstEdgeGain(pins: seq<nat>, sides: seq<bool>, v: nat)
    requires v < |sides|
    ensures EdgeTerm(pins, sides, v) <= EdgeGain(pins, sides, v)
    ensures EdgeTerm(pins, sides, v) == EdgeGain(pins, sides, v) <==> Counted(pins, sides, v)
  {
    var m := Times(pins, v);
    var own, other := CountOn(pins, sides, Side(sides, v)), CountOn(pins, sides, !Side(sides, v));
    CountOnFlip(pins, sides, v, false);
    CountOnFlip(pins, sides, v, true);
    CountOnOwn(pins, sides, v);
    if own == 1 {
    } else if other == 0 {
      assert Term(pins, sides, v) == -1;
    } else {
      assert Term(pins, sides, v) == 0;
    }
  }

  lemma {:induction false} ListGainRepeat(h: Csr, sides: seq<bool>, v: nat, edges: seq<nat>, e: nat, m: nat)
    ensures ListGain(h, sides, v, edges + Repeat(e, m)) ==
            ListGain(h, sides, v, edges) + m * Term(Pins(h, e), sides, v)
    decreases m
  {
    hide Pins, Term;
    var all, t := edges + Repeat(e, m), Term(Pins(h, e), sides, v);
    if m == 0 {
      assert all == edges;
    } else {
      assert m * t == (m - 1) * t + t;
      ListGainRepeat(h, sides, v, edges, e, m - 1);
      assert all[..|all| - 1] == edges + Repeat(e, m - 1);
      assert all[|all| - 1] == e;
    }
  }

  /** The sum of countGain, edge by edge. */
  lemma ListGainStep(h: Csr, sides: seq<bool>, v: nat, k: nat)
    requires k > 0
    ensures ListGain(h, sides, v, Adjacent(h, v, k)) ==
            ListGain(h, sides, v, Adjacent(h, v, k - 1)) + EdgeTerm(Pins(h, k), sides, v)
    ensures |Adjacent(h, v, k)| == |Adjacent(h, v, k - 1)| + Times(Pins(h, k), v)
  {
    hide Pins, Term, Times, ListGain;
    ListGainRepeat(h, sides, v, Adjacent(h, v, k - 1), k, Times(Pins(h, k), v));
  }

  lemma NothingListed(h: Csr, sides: seq<bool>, v: nat)
    ensures ListGain(h, sides, v, Adjacent(h, v, 0)) == 0 && Adjacent(h, v, 0) == []
  {
  }

  lemma {:induction false} ListGainAgainstCut(h: Csr, sides: seq<bool>, v: nat, k: nat)
    requires v < |sides|
    ensures ListGain(h, sides, v, Adjacent(h, v, k)) <= Cut(h, sides, k) - Cut(h, Flip(sides, v), k)
    ensures ListGain(h, sides, v, Adjacent(h, v, k)) == Cut(h, sides, k) - Cut(h, Flip(sides, v), k)
            <==> forall e :: 1 <= e <= k ==> Counted(Pins(h, e), sides, v)
    decreases k
  {
    hide Pins, EdgeTerm, Counted, IsCut, Times, ListGain, Adjacent;
    if k > 0 {
      ListGainAgainstCut(h, sides, v, k - 1);
      ListGainStep(h, sides, v, k);
      TermAgainstEdgeGain(Pins(h, k), sides, v);
    } else {
      NothingListed(h, sides, v);
    }
  }

  /** On every hypergraph the computed gain never exceeds the true one, and it is the true one exactly when every
      edge counts v properly. Distinct pins are enough; a net that lists one gate twice is not. */
  lemma CountGainExact(h: Csr, sides: seq<bool>, v: nat)
    requires v < |sides|
    ensures ComputedGain(h, sides, v) <= Gain(h, sides, v)
    ensures ComputedGain(h, sides, v) == Gain(h, sides, v)
            <==> forall e :: 1 <= e <= NEdges(h) ==> Counted(Pins(h, e), sides, v)
    ensures DistinctPins(h) ==> ComputedGain(h, sides, v) == Gain(h, sides, v)
  {
    ListGainAgainstCut(h, sides, v, NEdges(h));
    if DistinctPins(h) {
      forall e | 1 <= e <= NEdges(h) ensures Counted(Pins(h, e), sides, v) {
        TimesDistinct(Pins(h, e), v);
      }
    }
  }

  lemma SelfLoopTerm(pins: seq<nat>, sides: seq<bool>)
    requires pins == [0, 0] && |sides| == 1
    ensures Times(pins, 0) == 2 && Term(pins, sides, 0) == -1 && !IsCut(pins, sides)
  {
    assert pins[..1] == [0];
    CountOnAll(pins, sides);
    CountOnOwn(pins, sides, 0);
  }

  /** A self-loop net, both of whose pins are gate 0, is never cut: the true gain is 0, the computed one is -2. */
  lemma SelfLoopMiscounted(sides: seq<bool>)
    requires |sides| == 1
    ensures var h := Csr([1], [0, 2], [0, 0]);
            WellFormed(h) && Gain(h, sides, 0) == 0 && ComputedGain(h, sides, 0) == -2
  {
    hide CountOn, Term, Times, Adjacent, ListGain;
    var h := Csr([1], [0, 2], [0, 0]);
    assert Pins(h, 1) == [0, 0];
    hide Pins;
    SelfLoopTerm(Pins(h, 1), sides);
    SelfLoopTerm(Pins(h, 1), Flip(sides, 0));
    NothingListed(h, sides, 0);
    ListGainStep(h, sides, 0, 1);
    assert Cut(h, sides, 0) == Cut(h, Flip(sides, 0), 0) == 0;
  }

  lemma {:induction false} ListGainBound(h: Csr, sides: seq<bool>, v: nat, edges: seq<nat>)
    requires v < |sides|
    ensures -|edges| <= ListGain(h, sides, v, edges) <= |edges|
    decreases |edges|
  {
    if edges != [] { ListGainBound(h, sides, v, edges[..|edges| - 1]); }
  }

  // ----- adjacency lists

  lemma {:induction false} AdjacentEntries(h: Csr, v: nat, k: nat, e: nat)
    ensures Times(Adjacent(h, v, k), e) == if 1 <= e <= k then Times(Pins(h, e), v) else 0
    ensures e in Adjacent(h, v, k) <==> 1 <= e <= k && v in Pins(h, e)
    decreases k
  {
    hide Pins;
    if k > 0 {
      AdjacentEntries(h, v, k - 1, e);
      var m := Times(Pins(h, k), v);
      TimesAppend(Adjacent(h, v, k - 1), Repeat(k, m), e);
      TimesRepeat(k, m, e);
    }
    TimesPositive(Adjacent(h, v, k), e);
    TimesPositive(Pins(h, e), v);
  }

  lemma {:induction false} TimesRepeat(x: nat, m: nat, y: nat)
    ensures Times(Repeat(x, m), y) == if y == x then m else 0
    decreases m
  {
    if m > 0 {
      TimesRepeat(x, m - 1, y);
      TimesAppend(Repeat(x, m - 1), [x], y);
    }
  }

  /** An adjacency list is ascending, strictly so with distinct pins. */
  lemma {:induction false} AdjacentAscending(h: Csr, v: nat, k: nat)
    ensures forall i, j :: 0 <= i < j < |Adjacent(h, v, k)| ==> Adjacent(h, v, k)[i] <= Adjacent(h, v, k)[j]
    ensures DistinctPins(h) ==>
      forall i, j :: 0 <= i < j < |Adjacent(h, v, k)| ==> Adjacent(h, v, k)[i] < Adjacent(h, v, k)[j]
    decreases k
  {
    hide Pins;
    if k > 0 {
      AdjacentAscending(h, v, k - 1);
      if DistinctPins(h) { TimesDistinct(Pins(h, k), v); }
      var shorter := Adjacent(h, v, k - 1);
      forall i | 0 <= i < |shorter| ensures shorter[i] < k {
        AdjacentEntries(h, v, k - 1, shorter[i]);
      }
    }
  }

  // ----- moving back

  lemma FlipTwice(sides: seq<bool>, x: nat, v: nat)
    requires x < |sides| && v < |sides|
    ensures x != v ==> Flip(Flip(sides, x), v) == Flip(Flip(sides, v), x)
    ensures Flip(Flip(sides, x), x) == sides
  {
  }
}
