/** The Fiduccia-Mattheyses 2-way partitioner, class FMAlgo of src/util/fm.h and src/util/fm.cpp. */
module FmAlgo {
  import opened Sequences
  import opened Hypergraphs
  import opened EdgeGains
  import opened RepeatedPins
  import opened FmRuns
  import opened GainBuckets
  import opened Balance
  import opened Tables
  import opened GainCorrections
  import opened GreedyPicks
  import opened HeldGains
  import opened PickedRuns

  class FMAlgo {
    const h: Csr
    const r: real
    const passes: int
    var adjacentList: seq<seq<nat>>
    var maxDegree: int
    var lower: int
    var upper: int
    var area: seq<int>
    var sides: seq<bool>
    var distrib: seq<seq<int>>

    function W(): Window reads `lower, `upper { Window(lower, upper) }

    /** The hypergraph is well-formed, every node has a side, and the areas are those of the sides. */
    ghost predicate Placed() reads this {
      && WellFormed(h) && |sides| == NNodes(h) && maxDegree >= 0
      && area == [AreaOf(h, sides, false), AreaOf(h, sides, true)]
    }

    /** The adjacency lists of all nodes are in place. */
    ghost predicate Linked() reads `adjacentList { LinkedTo(NEdges(h)) }

    ghost predicate LinkedTo(k: nat) reads `adjacentList {
      |adjacentList| == NNodes(h) && forall v: nat :: v < NNodes(h) ==> adjacentList[v] == Adjacent(h, v, k)
    }

    ghost predicate Ready() reads this {
      Placed() && Linked() && Tabled(h, sides, distrib)
    }

    constructor (h: Csr, r: real, passes: int)
      requires WellFormed(h)
      ensures this.h == h && this.r == r && this.passes == passes
      ensures Placed() && W() == WindowOf(h, r) && Filled(h.weights, Middle(W()), sides) && maxDegree == 0
    {
      this.h, this.r, this.passes := h, r, passes;
      maxDegree := 0;
      new;
      BalanceCriterion();
      RandPartition();
    }

    method BalanceCriterion()
      modifies `lower, `upper
      ensures exists m :: IsMaximum(h.weights, m) && IsAround(W(), r * (Total(h) as real), m)
      ensures W() == WindowOf(h, r)
    {
      WindowIsAroundTarget(h, r);
      hide Ceil, Truncate, IsMaximum, IsAround;
      var max, total := 0, 0;
      for i := 0 to |h.weights|
        invariant max == MaxOf(h.weights, i) && total == TotalOf(h.weights, i)
      {
        if max < h.weights[i] { max := h.weights[i]; }
        total := total + h.weights[i];
      }
      var target := r * (total as real);
      assert target == Target(h, r);
      lower := Ceil(target) - max;
      upper := Truncate(target) + max;
    }

    method RandPartition()
      requires WellFormed(h) && maxDegree >= 0
      modifies `area, `sides
      ensures Placed() && Filled(h.weights, Middle(W()), sides)
    {
      hide WellFormed, Half;
      FillNone(h.weights, lower + Half(upper - lower));
      hide Area, Filling;
      area := [0, 0];
      var mid := lower + Half(upper - lower);
      sides := [];
      for node := 0 to |h.weights|
        invariant |sides| == node && Filling(h.weights, mid, sides)
        invariant area == [Area(h.weights, sides, false, node), Area(h.weights, sides, true, node)]
      {
        FillOne(h.weights, mid, sides, area[0] >= mid);
        if area[0] < mid {
          area := [area[0] + h.weights[node], area[1]];
          sides := sides + [false];
        } else {
          area := [area[0], area[1] + h.weights[node]];
          sides := sides + [true];
        }
      }
    }

    method CountAdjacentList()
      requires WellFormed(h)
      modifies `adjacentList
      ensures Linked()
    {
      hide Adjacent;
      adjacentList := seq(|h.weights|, _ => []);
      NothingAdjacent(h);
      for e := 1 to |h.eptr|
        invariant LinkedTo(e - 1)
      {
        LinkEdge(e);
      }
    }

    /** One round of the loop in CountAdjacentList. */
    method LinkEdge(e: nat)
      requires WellFormed(h) && 1 <= e < |h.eptr| && LinkedTo(e - 1)
      modifies `adjacentList
      ensures LinkedTo(e)
    {
      hide WellFormed, Adjacent, Distinct, Pins;
      PinsSlice(h, e);
      AdjacentStep(h, e);
      var first, last := h.eptr[e - 1], h.eptr[e];
      for i := first to last
        invariant Extended(e, h.eind[first..i], old(adjacentList), adjacentList)
      {
        SliceStep(h.eind, first, i, last);
        ExtendedOne(e, h.eind[first..i], h.eind[i], old(adjacentList), adjacentList);
        adjacentList := adjacentList[h.eind[i] := adjacentList[h.eind[i]] + [e]];
      }
    }

    method CountDistribution()
      requires Placed() && Linked()
      modifies `distrib
      ensures Ready()
    {
      hide WellFormed, TabledBelow, Tabled;
      distrib := seq(2, _ => seq(|h.eptr|, _ => 0));
      EmptyTable(h, sides, distrib);
      for v := 0 to |h.weights|
        invariant TabledBelow(h, sides, v, distrib)
      {
        CountNode(v);
      }
      FullTable(h, sides, distrib);
    }

    /** Adds to one counter of the distribution table. */
    method Add(side: bool, e: nat, x: int)
      requires |distrib| == 2 && |distrib[0]| == |distrib[1]| == |h.eptr| && e < |h.eptr|
      modifies `distrib
      ensures |distrib| == 2 && |distrib[0]| == |distrib[1]| == |h.eptr|
      ensures distrib[Ix(!side)] == old(distrib)[Ix(!side)]
      ensures forall f :: 0 <= f < |h.eptr| ==>
                distrib[Ix(side)][f] == old(distrib)[Ix(side)][f] + (if f == e then x else 0)
    {
      distrib := distrib[Ix(side) := distrib[Ix(side)][e := distrib[Ix(side)][e] + x]];
    }

    /** One round of the loop in CountDistribution. */
    method CountNode(v: nat)
      requires Placed() && Linked() && v < NNodes(h) && TabledBelow(h, sides, v, distrib)
      modifies `distrib
      ensures TabledBelow(h, sides, v + 1, distrib)
    {
      hide WellFormed, Adjacent, Area;
      var side := sides[v];
      var edges := adjacentList[v];
      AdjacentInRange(h, v);
      for j := 0 to |edges|
        invariant |distrib| == 2 && |distrib[0]| == |distrib[1]| == |h.eptr|
        invariant distrib[Ix(!side)] == old(distrib)[Ix(!side)]
        invariant forall e: nat :: e < |h.eptr| ==>
          distrib[Ix(side)][e] == old(distrib)[Ix(side)][e] + Times(edges[..j], e)
      {
        hide TabledBelow;
        assert edges[..j + 1][..j] == edges[..j] && edges[j] in edges;
        Add(side, edges[j], 1);
      }
      assert edges[..|edges|] == edges;
      TabledOneMore(h, sides, v, old(distrib), distrib);
    }

    /** The gain countGain computes never exceeds the true one. It is the true one exactly when every edge counts the
        node properly, and if the pins can be corrected, it falls short of it by the same amount for all sides. */
    method CountGain(node: nat) returns (g: int)
      requires Ready() && node < NNodes(h)
      ensures g == ComputedGain(h, sides, node) <= Gain(h, sides, node)
      ensures -|adjacentList[node]| <= g <= |adjacentList[node]|
      ensures g == Gain(h, sides, node) <==> forall e :: 1 <= e <= NEdges(h) ==> Counted(Pins(h, e), sides, node)
      ensures DistinctPins(h) ==> g == Gain(h, sides, node)
      ensures CorrectablePins(h) ==> g == Gain(h, sides, node) - SurplusOf(h, {node}, NEdges(h))
    {
      hide WellFormed, Adjacent, Pins, CountOn, Counted, Gain, DistinctPins, CorrectablePins;
      var fs, ts := 0, 0;
      var side := sides[node];
      var edges := adjacentList[node];
      AdjacentInRange(h, node);
      for j := 0 to |edges|
        invariant fs - ts == ListGain(h, sides, node, edges[..j])
      {
        var e := edges[j];
        assert edges[..j + 1][..j] == edges[..j] && e in edges;
        TermFromTable(h, sides, node, e, distrib);
        hide Term, Tabled;
        ts := ts + Int(distrib[Ix(!side)][e] == 0);
        fs := fs + Int(distrib[Ix(side)][e] == 1);
      }
      assert edges[..|edges|] == edges;
      CountGainExact(h, sides, node);
      ListGainBound(h, sides, node, edges);
      if CorrectablePins(h) { ComputedGainFallsShort(h, sides, node); }
      g := fs - ts;
    }

    method MoveNode(node: nat)
      requires Ready() && node < NNodes(h)
      modifies `area, `sides, `distrib
      ensures Ready() && sides == Flip(old(sides), node)
    {
      hide WellFormed, Adjacent, Tabled, Area;
      var side := sides[node];
      AreaFlip(h.weights, sides, node, false, NNodes(h));
      AreaFlip(h.weights, sides, node, true, NNodes(h));
      area := area[Ix(side) := area[Ix(side)] - h.weights[node]];
      area := area[Ix(!side) := area[Ix(!side)] + h.weights[node]];
      sides := sides[node := !side];
      TabledShape(h, old(sides), distrib);
      MovePins(node, side);
      TabledFlip(h, old(sides), node, old(distrib), distrib);
    }

    /** The loop of MoveNode over the edges of the node. */
    method MovePins(node: nat, side: bool)
      requires WellFormed(h) && Linked() && node < NNodes(h)
      requires |distrib| == 2 && |distrib[0]| == |distrib[1]| == |h.eptr|
      modifies `distrib
      ensures Shifted(h, node, side, old(distrib), distrib)
    {
      hide WellFormed, Adjacent;
      var edges := adjacentList[node];
      AdjacentInRange(h, node);
      for j := 0 to |edges|
        invariant |distrib| == 2 && |distrib[0]| == |distrib[1]| == |h.eptr|
        invariant forall e: nat :: e < |h.eptr| ==>
          distrib[Ix(side)][e] == old(distrib)[Ix(side)][e] - Times(edges[..j], e) &&
          distrib[Ix(!side)][e] == old(distrib)[Ix(!side)][e] + Times(edges[..j], e)
      {
        assert edges[..j + 1][..j] == edges[..j] && edges[j] in edges;
        Add(side, edges[j], -1);
        Add(!side, edges[j], 1);
      }
      assert edges[..|edges|] == edges;
    }

    /** The slack in the window that moving the node would leave, from the current areas. */
    function CountMinCriterion(node: nat): (rest: int)
      requires Placed() && node < NNodes(h)
      reads this
      ensures var a := AreaOf(h, Flip(sides, node), false);
              rest <= upper - a && rest <= a - lower && (rest == upper - a || rest == a - lower)
      ensures rest == Rest(h, W(), sides, node)
      ensures rest >= 0 <==> Fits(h, W(), sides, node)
    {
      AreaFlip(h.weights, sides, node, false, NNodes(h));
      var narea := if sides[node] then area[0] + h.weights[node] else area[0] - h.weights[node];
      if narea - lower < upper - narea then narea - lower else upper - narea
    }

    /** The first bucket with a node that fits the window, and in it the last of the nodes that leave most slack. */
    method MaxGain(gain: seq<seq<nat>>) returns (maxNode: int, ghost b: nat, ghost at: nat)
      requires Placed() && forall i :: 0 <= i < |gain| ==> forall v :: v in gain[i] ==> v < NNodes(h)
      ensures maxNode == -1 ==> forall i :: 0 <= i < |gain| ==> NoneFits(h, W(), sides, gain[i])
      ensures maxNode != -1 ==>
        && b < |gain| && LastBest(h, W(), sides, gain[b], at) && maxNode == gain[b][at]
        && forall i :: 0 <= i < b ==> NoneFits(h, W(), sides, gain[i])
    {
      hide Fits, Rest;
      maxNode, b, at := -1, 0, 0;
      var maxRest := 0;
      for i := 0 to |gain|
        invariant maxNode == -1 && maxRest == 0
        invariant forall k :: 0 <= k < i ==> NoneFits(h, W(), sides, gain[k])
      {
        for p := 0 to |gain[i]|
          invariant maxNode == -1 ==> maxRest == 0 && NoneFits(h, W(), sides, gain[i][..p])
          invariant maxNode != -1 ==>
            && LastBest(h, W(), sides, gain[i][..p], at)
            && maxNode == gain[i][at] && maxRest == Rest(h, W(), sides, gain[i][at])
        {
          assert gain[i][p] in gain[i];
          var curRest := CountMinCriterion(gain[i][p]);
          ghost var longer := gain[i][..p + 1];
          assert longer == gain[i][..p] + [gain[i][p]];
          if curRest >= maxRest {
            maxNode, maxRest, at := gain[i][p], curRest, p;
          }
        }
        assert gain[i][..|gain[i]|] == gain[i];
        if maxNode >= 0 {
          b := i;
          return;
        }
      }
    }

    method TempMove(node: nat, order: seq<Step>, gain: seq<seq<nat>>, ptrGain: seq<int>)
      returns (o: seq<Step>, g: seq<seq<nat>>, p: seq<int>)
      requires Ready() && node < NNodes(h)
      requires Buckets(NNodes(h), maxDegree, gain, ptrGain) && ptrGain[node] != -1
      modifies `area, `sides, `distrib
      ensures Ready() && sides == Flip(old(sides), node)
      ensures o == order + [Step(node, maxDegree - ptrGain[node], Rest(h, W(), old(sides), node))]
      ensures Buckets(NNodes(h), maxDegree, g, p) && p == ptrGain[node := -1]
      ensures Held(g, p) == Taken(Held(gain, ptrGain), node)
    {
      var gainIt := ptrGain[node];
      hide Buckets, Tabled, LinkedTo, Rest, Fits, WellFormed;
      o := order + [Step(node, maxDegree - gainIt, CountMinCriterion(node))];
      g, p := Lock(NNodes(h), maxDegree, node, gain, ptrGain);
      MoveNode(node);
    }

    /** No degree exceeds maxDegree, so gains index the buckets 0..2 * maxDegree. */
    ghost predicate DegreesFit() reads `adjacentList, `maxDegree {
      maxDegree >= 0 && forall v :: 0 <= v < |adjacentList| ==> |adjacentList[v]| <= maxDegree
    }

    /** Corrects the gains of the unlocked nodes after node has moved. If the pins can be corrected and the gains were
        those that countGain computes for the sides without the move, they become those it computes for the sides as
        they are. */
    method GainUpdate(node: nat, gain: seq<seq<nat>>, ptrGain: seq<int>) returns (held: Held)
      requires Ready() && node < NNodes(h) && Buckets(NNodes(h), maxDegree, gain, ptrGain)
      ensures held == AfterEdges(h, Held(gain, ptrGain), sides, node, Adjacent(h, node, NEdges(h)))
      ensures held.Held? ==> InBuckets(NNodes(h), maxDegree, held) && SameLocks(ptrGain, held.ptrGain)
      ensures (CorrectablePins(h) && DegreesFit() && ptrGain[node] == -1 &&
               GainsAre(h, Flip(sides, node), maxDegree, ptrGain)) ==>
        held.Held? && GainsAre(h, sides, maxDegree, held.ptrGain)
    {
      hide Distinct, WellFormed, Tabled, Pins, AfterEdge, Buckets, GainsAre, Adjacent, CorrectablePins, AfterEdges;
      held := Held(gain, ptrGain);
      var edges := adjacentList[node];
      NoEdgesYet(h, held, sides, node, edges[..0]);
      for j := 0 to |edges|
        invariant held == AfterEdges(h, Held(gain, ptrGain), sides, node, edges[..j])
        invariant held.Held? && InBuckets(NNodes(h), maxDegree, held)
      {
        EdgesStep(h, Held(gain, ptrGain), sides, node, edges, j);
        held := UpdateEdge(node, j, held.gain, held.ptrGain);
        if held.Outside? {
          EdgesOutside(h, Held(gain, ptrGain), sides, node, edges, j + 1);
          GainUpdateIsExact(node, gain, ptrGain, held);
          return;
        }
      }
      assert edges[..|edges|] == edges;
      EdgesInBuckets(h, maxDegree, Held(gain, ptrGain), sides, node, edges);
      GainUpdateIsExact(node, gain, ptrGain, held);
    }

    lemma GainUpdateIsExact(node: nat, gain: seq<seq<nat>>, ptrGain: seq<int>, held: Held)
      requires Ready() && node < NNodes(h) && Buckets(NNodes(h), maxDegree, gain, ptrGain)
      requires held == AfterEdges(h, Held(gain, ptrGain), sides, node, Adjacent(h, node, NEdges(h)))
      ensures (CorrectablePins(h) && DegreesFit() && ptrGain[node] == -1 &&
               GainsAre(h, Flip(sides, node), maxDegree, ptrGain)) ==>
        held.Held? && GainsAre(h, sides, maxDegree, held.ptrGain)
    {
      BucketsPart(NNodes(h), maxDegree, gain, ptrGain);
      hide WellFormed, Tabled, AfterEdges, Buckets, GainsAre, Adjacent, CorrectablePins;
      if CorrectablePins(h) && DegreesFit() && ptrGain[node] == -1 &&
        GainsAre(h, Flip(sides, node), maxDegree, ptrGain)
      {
        EdgesExact(h, sides, maxDegree, Held(gain, ptrGain), node);
      }
    }

    /** One round of GainUpdate. If the pins can be corrected, the gains corrected for the first j entries of the
        adjacency list become those corrected for one entry more. */
    method UpdateEdge(node: nat, j: nat, gain: seq<seq<nat>>, ptrGain: seq<int>) returns (held: Held)
      requires Ready() && node < NNodes(h) && j < |adjacentList[node]|
      requires Buckets(NNodes(h), maxDegree, gain, ptrGain)
      ensures held == AfterEdge(Held(gain, ptrGain), Pins(h, adjacentList[node][j]), sides, node)
      ensures held.Held? ==> InBuckets(NNodes(h), maxDegree, held) && SameLocks(ptrGain, held.ptrGain)
      ensures (CorrectablePins(h) && DegreesFit() && ptrGain[node] == -1 &&
               GainsPartly(h, Flip(sides, node), sides, node, adjacentList[node][..j], maxDegree, ptrGain)) ==>
        held.Held? &&
        GainsPartly(h, Flip(sides, node), sides, node, adjacentList[node][..j + 1], maxDegree, held.ptrGain)
    {
      hide Distinct, CountOn, GainsPartly, Buckets, Adjacent, Pins, CorrectablePins, AfterPins;
      AdjacentInRange(h, node);
      var e := adjacentList[node][j];
      assert e in adjacentList[node];
      var toBlock := sides[node];
      var to, from := distrib[Ix(toBlock)][e] - 1, distrib[Ix(!toBlock)][e];
      assert to == CountOn(Pins(h, e), sides, toBlock) - 1 && from == CountOn(Pins(h, e), sides, !toBlock);
      hide WellFormed, Tabled;
      held := Held(gain, ptrGain);
      if to <= 1 || from <= 1 {
        held := UpdatePins(e, to, from, toBlock, gain, ptrGain);
      }
      EdgeInBuckets(h, maxDegree, Held(gain, ptrGain), sides, node, e);
      UpdateEdgeIsExact(node, j, gain, ptrGain, held);
    }

    lemma UpdateEdgeIsExact(node: nat, j: nat, gain: seq<seq<nat>>, ptrGain: seq<int>, held: Held)
      requires Ready() && node < NNodes(h) && j < |adjacentList[node]|
      requires Buckets(NNodes(h), maxDegree, gain, ptrGain)
      requires held == AfterEdge(Held(gain, ptrGain), Pins(h, adjacentList[node][j]), sides, node)
      ensures (CorrectablePins(h) && DegreesFit() && ptrGain[node] == -1 &&
               GainsPartly(h, Flip(sides, node), sides, node, adjacentList[node][..j], maxDegree, ptrGain)) ==>
        held.Held? &&
        GainsPartly(h, Flip(sides, node), sides, node, adjacentList[node][..j + 1], maxDegree, held.ptrGain)
    {
      BucketsPart(NNodes(h), maxDegree, gain, ptrGain);
      hide WellFormed, Tabled, GainsPartly, Buckets, Adjacent, Pins, CorrectablePins, AfterEdge;
      FlipTwice(sides, node, node);
      hide Flip;
      if CorrectablePins(h) && DegreesFit() && ptrGain[node] == -1 &&
        GainsPartly(h, Flip(sides, node), sides, node, adjacentList[node][..j], maxDegree, ptrGain)
      {
        EdgeExact(h, Flip(sides, node), sides, maxDegree, Held(gain, ptrGain), node, adjacentList[node], j);
      }
    }

    /** The loop of GainUpdate over the pins of an edge. The source does not check that the new index is one of a
        bucket. */
    method UpdatePins(e: nat, to: int, from: int, toBlock: bool, gain: seq<seq<nat>>, ptrGain: seq<int>)
      returns (held: Held)
      requires WellFormed(h) && |sides| == NNodes(h) && 1 <= e <= NEdges(h)
      requires Buckets(NNodes(h), maxDegree, gain, ptrGain)
      ensures held == AfterPins(Held(gain, ptrGain), Pins(h, e), sides, to, from, toBlock)
      ensures held.Held? ==> InBuckets(NNodes(h), maxDegree, held)
      ensures held.Held? ==> Corrected(Pins(h, e), sides, to, from, toBlock, ptrGain, held.ptrGain)
    {
      hide WellFormed, GainDelta, Buckets, Distinct, AfterPins, Moved;
      PinsSlice(h, e);
      ghost var start := Held(gain, ptrGain);
      var g, p := gain, ptrGain;
      ghost var pins := Pins(h, e);
      hide Pins;
      var first, last := h.eptr[e - 1], h.eptr[e];
      NoPinsYet(start, h.eind[first..first], sides, to, from, toBlock);
      for i := first to last
        invariant Buckets(NNodes(h), maxDegree, g, p)
        invariant Held(g, p) == AfterPins(start, h.eind[first..i], sides, to, from, toBlock)
      {
        var nextV := h.eind[i];
        SliceStep(h.eind, first, i, last);
        PinsStep(start, h.eind[first..i], nextV, sides, to, from, toBlock);
        BucketsPart(NNodes(h), maxDegree, g, p);
        MovedKeeps(NNodes(h), maxDegree, Held(g, p), nextV, GainDelta(to, from, sides[nextV] == toBlock));
        if p[nextV] != -1 {
          var inc := GainDelta(to, from, sides[nextV] == toBlock);
          var oldGain := maxDegree - p[nextV];
          var newGain := oldGain + inc;
          if maxDegree - newGain < 0 || maxDegree - newGain > 2 * maxDegree {
            assert h.eind[first..i + 1] == pins[..i + 1 - first];
            PinsOutside(start, pins, sides, to, from, toBlock, i + 1 - first);
            return Outside;
          }
          g, p := Rebucket(NNodes(h), maxDegree, nextV, maxDegree - newGain, g, p);
        }
      }
      held := Held(g, p);
      PinsInBuckets(NNodes(h), maxDegree, start, pins, sides, to, from, toBlock);
    }

    /** The buckets at the start of a pass (src/util/fm.cpp:37-46): every node unlocked, at the index of its gain as
        countGain computes it, the later nodes of a bucket in front of the earlier ones. */
    method FillBuckets() returns (gain: seq<seq<nat>>, ptrGain: seq<int>)
      requires Ready() && DegreesFit()
      ensures Held(gain, ptrGain) == Initial(h, sides, maxDegree, NNodes(h))
      ensures Buckets(NNodes(h), maxDegree, gain, ptrGain) && GainsAre(h, sides, maxDegree, ptrGain)
      ensures forall v :: 0 <= v < |ptrGain| ==> ptrGain[v] != -1
    {
      hide ComputedGain, Gain, Distinct, WellFormed, Tabled, DistinctPins, Counted, Adjacent, Buckets, Initial;
      gain, ptrGain := seq(2 * maxDegree + 1, _ => []), [];
      EmptyBuckets(maxDegree, gain);
      InitialStart(h, sides, maxDegree, gain);
      for v := 0 to |h.weights|
        invariant Buckets(v, maxDegree, gain, ptrGain) && GainsAre(h, sides, maxDegree, ptrGain) && |ptrGain| == v
        invariant forall u :: 0 <= u < |ptrGain| ==> ptrGain[u] != -1
        invariant Held(gain, ptrGain) == Initial(h, sides, maxDegree, v)
      {
        hide Ready;
        InitialStep(h, sides, maxDegree, v);
        var index := CountGain(v);
        index := maxDegree - index;
        gain, ptrGain := Append(v, maxDegree, index, gain, ptrGain);
      }
    }

    /** The best prefix; inRange is false if a sum leaves int, where the source overflows. */
    method BestMoves(order: seq<Step>) returns (gm: int, m: nat, inRange: bool)
      ensures inRange <==> SumsInRange(order)
      ensures inRange ==> IsBest(order, gm, m)
    {
      gm, m, inRange := INT_MIN, 0, true;
      var sum := 0;
      for i := 0 to |order|
        invariant i == 0 ==> gm == INT_MIN && m == 0 && sum == 0
        invariant i > 0 ==> sum == GainThrough(order, i - 1) && m < i && gm == GainThrough(order, m)
        invariant forall k :: 0 <= k < i ==> INT_MIN <= GainThrough(order, k) <= INT_MAX
        invariant forall k :: 0 <= k < i ==> GainThrough(order, k) <= gm
        invariant forall k :: 0 <= k < i && GainThrough(order, k) == gm ==> order[k].minRest <= order[m].minRest
        invariant forall k :: 0 <= k < m && GainThrough(order, k) == gm ==> order[k].minRest < order[m].minRest
      {
        sum := sum + order[i].gain;
        assert sum == GainThrough(order, i);
        if sum < INT_MIN || sum > INT_MAX {
          inRange := false;
          return;
        }
        if sum > gm || (sum == gm && order[i].minRest > order[m].minRest) {
          gm, m := sum, i;
        }
      }
    }

    method ConfirmMoves(order: seq<Step>, m: nat, ghost s0: seq<bool>)
      requires Ready() && sides == After(s0, order) && m < |order|
      requires forall i :: 0 <= i < |order| ==> order[i].node < NNodes(h)
      modifies `area, `sides, `distrib
      ensures Ready() && sides == After(s0, order[..m + 1])
    {
      hide Tabled, WellFormed, LinkedTo;
      assert order[..|order|] == order;
      var i := |order| - 1;
      while i != m
        invariant m <= i < |order|
        invariant Ready() && sides == After(s0, order[..i + 1])
      {
        assert order[..i + 1][..i] == order[..i];
        FlipTwice(After(s0, order[..i]), order[i].node, order[i].node);
        MoveNode(order[i].node);
        i := i - 1;
      }
    }

    /** The tentative moves of a pass (src/util/fm.cpp:33-58). They are determined by the sides, on any hypergraph, and
        end when no node fits or an index leaves the buckets. If the pins can be corrected they are greedy, and no index
        does. */
    method MoveGreedily() returns (order: seq<Step>, held: Held)
      requires Ready() && DegreesFit()
      modifies `area, `sides, `distrib
      ensures Ready() && sides == After(old(sides), order)
      ensures PickedLog(h, W(), old(sides), maxDegree, order) && Ended(h, W(), old(sides), maxDegree, order)
      ensures held == Holding(h, old(sides), maxDegree, order)
      ensures CorrectablePins(h) ==>
        held.Held? && GreedyLog(h, W(), old(sides), order) && Exhausted(h, W(), old(sides), order)
    {
      hide Tabled, WellFormed, LinkedTo, CorrectablePins, Initial, Adjacent, Buckets;
      hide PickedLog, Holding, After, Ended, GreedyLog, Exhausted;
      DegreesAreWithin();
      hide DegreesWithin;
      order := [];
      LogStart(h, W(), sides, maxDegree);
      var gain, ptrGain := FillBuckets();
      held := Held(gain, ptrGain);
      var fixed := 0;
      hide DegreesFit;
      while fixed < |h.weights|
        invariant Ready() && sides == After(old(sides), order) && fixed == |order| <= NNodes(h)
        invariant PickedLog(h, W(), old(sides), maxDegree, order) && held == Holding(h, old(sides), maxDegree, order)
        invariant held.Held?
      {
        var more;
        more, order, held := PickAndMove(order, held, old(sides));
        if !more {
          MovesAreGreedy(old(sides), order);
          return;
        }
        fixed := fixed + 1;
      }
      AllPickedEnded(h, W(), old(sides), maxDegree, order);
      MovesAreGreedy(old(sides), order);
    }

    /** One round of the loop in MoveGreedily; more is false when it was the last one. */
    method PickAndMove(order: seq<Step>, was: Held, ghost s0: seq<bool>)
      returns (more: bool, o: seq<Step>, held: Held)
      requires Ready() && DegreesWithin(h, maxDegree) && |s0| == NNodes(h) && sides == After(s0, order)
      requires PickedLog(h, W(), s0, maxDegree, order) && was == Holding(h, s0, maxDegree, order) && was.Held?
      modifies `area, `sides, `distrib
      ensures Ready() && sides == After(s0, o) && (more ==> held.Held? && |o| == |order| + 1)
      ensures PickedLog(h, W(), s0, maxDegree, o) && held == Holding(h, s0, maxDegree, o)
      ensures !more ==> Ended(h, W(), s0, maxDegree, o)
    {
      hide Fits, Rest, Tabled, WellFormed, LinkedTo, Buckets, PickedLog, Holding, After, Ended, NoneFits;
      PickedHolding(h, W(), s0, maxDegree, order);
      BucketsPart(NNodes(h), maxDegree, was.gain, was.ptrGain);
      var nodeMax, b, at := MaxGain(was.gain);
      if nodeMax == -1 {
        NonePickedEnded(h, W(), s0, maxDegree, order);
        return false, order, was;
      }
      InItsBucket(NNodes(h), maxDegree, was, b, at);
      o, held := MoveOne(nodeMax, b, at, order, was, s0);
      more := held.Held?;
      if !more { OutsideEnded(h, W(), s0, maxDegree, o); }
    }

    lemma DegreesAreWithin()
      requires Ready() && DegreesFit()
      ensures DegreesWithin(h, maxDegree)
    {
      hide WellFormed, Tabled, Adjacent;
    }

    lemma MovesAreGreedy(s0: seq<bool>, order: seq<Step>)
      requires WellFormed(h) && |s0| == NNodes(h) && maxDegree >= 0 && DegreesWithin(h, maxDegree)
      requires PickedLog(h, W(), s0, maxDegree, order) && Ended(h, W(), s0, maxDegree, order)
      ensures CorrectablePins(h) ==>
        Holding(h, s0, maxDegree, order).Held? && GreedyLog(h, W(), s0, order) && Exhausted(h, W(), s0, order)
    {
      hide WellFormed, PickedLog, Ended, Holding, GreedyLog, Exhausted, DegreesWithin, CorrectablePins;
      if CorrectablePins(h) {
        PickedIsGreedy(h, W(), s0, maxDegree, order);
        EndedIsExhausted(h, W(), s0, maxDegree, order);
      }
    }

    /** A tentative move and the gain update after it. */
    method MoveOne(node: nat, ghost b: nat, ghost at: nat, order: seq<Step>, was: Held, ghost s0: seq<bool>)
      returns (o: seq<Step>, held: Held)
      requires Ready() && node < NNodes(h) && sides == After(s0, order) && InBuckets(NNodes(h), maxDegree, was)
      requires PickedAt(h, W(), sides, was.gain, b, at) && node == was.gain[b][at]
      requires PickedLog(h, W(), s0, maxDegree, order) && was == Holding(h, s0, maxDegree, order)
      modifies `area, `sides, `distrib
      ensures Ready() && sides == After(s0, o) && |o| == |order| + 1
      ensures PickedLog(h, W(), s0, maxDegree, o) && held == Holding(h, s0, maxDegree, o)
    {
      hide Fits, Rest, Tabled, WellFormed, LinkedTo, Flip, Adjacent, AfterEdges, Taken, Initial, NoneFits;
      InItsBucket(NNodes(h), maxDegree, was, b, at);
      hide Buckets;
      var gain, ptrGain;
      o, gain, ptrGain := TempMove(node, order, was.gain, was.ptrGain);
      assert o[..|order|] == order;
      held := GainUpdate(node, gain, ptrGain);
    }

    /** One pass (src/util/fm.cpp:33-62). It is undefined if an index has left the buckets or a sum the range of int. */
    method RunPass() returns (gm: int, defined: bool, ghost pass: Pass)
      requires Ready() && DegreesFit()
      modifies `area, `sides, `distrib
      ensures Ready() && PickedLog(h, W(), old(sides), maxDegree, pass.order)
      ensures Ended(h, W(), old(sides), maxDegree, pass.order)
      ensures defined <==> Holding(h, old(sides), maxDegree, pass.order).Held? && SumsInRange(pass.order)
      ensures defined ==> PickedPass(h, W(), old(sides), maxDegree, pass) && gm == pass.gm
      ensures defined ==> sides == EndSides(old(sides), pass)
      ensures CorrectablePins(h) && SumsFit(h) ==> defined && IsPass(h, W(), old(sides), pass)
    {
      hide PickedLog, Ended, Holding, Tabled, WellFormed, LinkedTo, CorrectablePins, After, SumsInRange, SumsFit;
      hide IsPass;
      var order, held := MoveGreedily();
      DegreesAreWithin();
      hide DegreesWithin, DegreesFit;
      PassIsDefined(old(sides), order);
      gm, defined, pass := 0, false, Pass(order, 0, 0);
      if held.Outside? {
        return;
      }
      var m: nat;
      gm, m, defined := BestMoves(order);
      if !defined {
        return;
      }
      pass := Pass(order, gm, m);
      assert order[..|order|] == order;
      if gm >= 0 {
        LogNodes(old(sides), order);
        ConfirmMoves(order, m, old(sides));
      }
      PassIsPass(old(sides), pass);
    }

    lemma PassIsDefined(s0: seq<bool>, order: seq<Step>)
      requires WellFormed(h) && |s0| == NNodes(h) && maxDegree >= 0 && DegreesWithin(h, maxDegree)
      requires PickedLog(h, W(), s0, maxDegree, order)
      ensures CorrectablePins(h) && SumsFit(h) ==> Holding(h, s0, maxDegree, order).Held? && SumsInRange(order)
    {
      if CorrectablePins(h) && SumsFit(h) { PickedIsDefined(h, W(), s0, maxDegree, order); }
    }

    lemma PassIsPass(s0: seq<bool>, pass: Pass)
      requires WellFormed(h) && |s0| == NNodes(h) && maxDegree >= 0 && DegreesWithin(h, maxDegree)
      requires PickedPass(h, W(), s0, maxDegree, pass)
      ensures CorrectablePins(h) ==> IsPass(h, W(), s0, pass)
    {
      if CorrectablePins(h) { PickedPassIsPass(h, W(), s0, maxDegree, pass); }
    }

    lemma LogNodes(s0: seq<bool>, order: seq<Step>)
      requires WellFormed(h) && |s0| == NNodes(h) && maxDegree >= 0 && DegreesWithin(h, maxDegree)
      requires PickedLog(h, W(), s0, maxDegree, order)
      ensures forall i :: 0 <= i < |order| ==> order[i].node < NNodes(h)
    {
      hide WellFormed, DegreesWithin, Holding, PickedLog;
      PickedHolding(h, W(), s0, maxDegree, order);
      forall i | 0 <= i < |order| ensures order[i].node in Locked(order) {
        StepLocked(order, i);
      }
    }

    /** The whole algorithm: a run of passes that stops when one does not improve or the passes are used up. It is
        determined by the sides it starts from, on any hypergraph, unless a last pass is undefined. If the pins can be
        corrected and the sums fit, none is. */
    method Fm() returns (defined: bool, ghost run: seq<Pass>, ghost last: seq<Step>)
      requires Placed()
      modifies this
      ensures Ready() && W() == old(W()) && DegreesWithin(h, maxDegree)
      ensures maxDegree == old(maxDegree) || exists v :: 0 <= v < |adjacentList| && |adjacentList[v]| == maxDegree
      ensures Outcome(h, W(), old(sides), maxDegree, passes, defined, run, last)
      ensures defined ==> sides == FinalSides(old(sides), run)
      ensures CorrectablePins(h) && SumsFit(h) ==> defined && IsRun(h, W(), old(sides), run)
    {
      hide Tabled, WellFormed, CorrectablePins, SumsFit, IsPass, EndSides, IsRun, FinalSides, PickedRun, PickedPass;
      hide PickedLog, Ended, Holding, SumsInRange;
      CountAdjacentList();
      CountDistribution();
      SetMaxDegree();
      NoPasses(h, W(), sides, maxDegree);
      DegreesAreWithin();
      hide DegreesWithin;
      var gm := INT_MAX;
      var iteration := 0;
      defined, run, last := true, [], [];
      while gm > 0 && iteration < passes
        invariant Ready() && DegreesFit() && W() == old(W()) && DegreesWithin(h, maxDegree)
        invariant maxDegree == old(maxDegree) || exists v :: 0 <= v < |adjacentList| && |adjacentList[v]| == maxDegree
        invariant PickedRun(h, W(), old(sides), maxDegree, run) && sides == FinalSides(old(sides), run)
        invariant |run| == iteration && (iteration <= passes || iteration == 0) && defined
        invariant gm == if run == [] then INT_MAX else run[|run| - 1].gm
        decreases passes - iteration
      {
        ghost var pass;
        gm, defined, pass := RunPass();
        if !defined {
          last := pass.order;
          return;
        }
        OnePassMore(h, W(), old(sides), maxDegree, run, pass);
        run := run + [pass];
        iteration := iteration + 1;
      }
      RunIsRun(old(sides), run);
    }

    lemma RunIsRun(s0: seq<bool>, run: seq<Pass>)
      requires WellFormed(h) && |s0| == NNodes(h) && maxDegree >= 0 && DegreesWithin(h, maxDegree)
      requires PickedRun(h, W(), s0, maxDegree, run)
      ensures CorrectablePins(h) ==> IsRun(h, W(), s0, run)
    {
      if CorrectablePins(h) { PickedRunIsRun(h, W(), s0, maxDegree, run); }
    }

    /** Raises maxDegree to the longest adjacency list (src/util/fm.cpp:21-25). */
    method SetMaxDegree()
      requires Ready()
      modifies `maxDegree
      ensures Ready() && DegreesFit() && maxDegree >= old(maxDegree)
      ensures maxDegree == old(maxDegree) || exists v :: 0 <= v < |adjacentList| && |adjacentList[v]| == maxDegree
    {
      hide Tabled, WellFormed, LinkedTo;
      for v := 0 to |adjacentList|
        invariant Ready() && forall u :: 0 <= u < v ==> |adjacentList[u]| <= maxDegree
        invariant maxDegree >= old(maxDegree)
        invariant maxDegree == old(maxDegree) || exists u :: 0 <= u < v && |adjacentList[u]| == maxDegree
      {
        if |adjacentList[v]| > maxDegree {
          maxDegree := |adjacentList[v]|;
        }
      }
    }
  }
}
