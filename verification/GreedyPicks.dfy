/** From exact gain buckets, the node that FMAlgo::maxGain picks is a greedy choice (src/util/fm.cpp:123-145). */
module GreedyPicks {
  import opened Sequences
  import opened Hypergraphs
  import opened EdgeGains
  import opened FmRuns
  import opened GainBuckets
  import opened GainCorrections

  ghost predicate NoneFits(h: Csr, w: Window, sides: seq<bool>, bucket: seq<nat>) {
    forall v :: v in bucket ==> !Fits(h, w, sides, v)
  }

  /** bucket[at] fits and leaves at least the slack of every node of the bucket that fits, more than those behind it. */
  ghost predicate LastBest(h: Csr, w: Window, sides: seq<bool>, bucket: seq<nat>, at: nat) {
    && at < |bucket| && Fits(h, w, sides, bucket[at])
    && forall p :: 0 <= p < |bucket| && Fits(h, w, sides, bucket[p]) ==>
         Rest(h, w, sides, bucket[p]) <= Rest(h, w, sides, bucket[at]) &&
         (p > at ==> Rest(h, w, sides, bucket[p]) < Rest(h, w, sides, bucket[at]))
  }

  ghost predicate LockedAre(ptrGain: seq<int>, locked: set<nat>) {
    forall v: nat :: v < |ptrGain| ==> (ptrGain[v] == -1 <==> v in locked)
  }

  /** The node MaxGain picks from exact buckets is a greedy choice. */
  lemma PickIsGreedy(h: Csr, w: Window, sides: seq<bool>, d: int, gain: seq<seq<nat>>, ptrGain: seq<int>,
                     locked: set<nat>, b: nat, at: nat)
    requires Buckets(NNodes(h), d, gain, ptrGain) && GainsAre(h, sides, d, ptrGain) && LockedAre(ptrGain, locked)
    requires |sides| == NNodes(h) && b < |gain| && LastBest(h, w, sides, gain[b], at)
    requires forall i :: 0 <= i < b ==> NoneFits(h, w, sides, gain[i])
    ensures var x := gain[b][at];
            x < NNodes(h) && ptrGain[x] == b && GreedyChoice(h, w, sides, locked, Step(x, d - b, Rest(h, w, sides, x)))
  {
    hide Fits, Rest, ComputedGain, Distinct;
    var x := gain[b][at];
    assert x in gain[b];
    forall v: nat | v < NNodes(h) && v !in locked && Fits(h, w, sides, v)
      ensures ComputedGain(h, sides, v) <= d - b
      ensures ComputedGain(h, sides, v) == d - b ==> Rest(h, w, sides, v) <= Rest(h, w, sides, x)
    {
      assert v in gain[ptrGain[v]];
      assert ptrGain[v] >= b;
    }
  }

  lemma NoPickIsExhausted(h: Csr, w: Window, s0: seq<bool>, order: seq<Step>, d: int, gain: seq<seq<nat>>,
                          ptrGain: seq<int>)
    requires Buckets(NNodes(h), d, gain, ptrGain) && LockedAre(ptrGain, Locked(order))
    requires forall i :: 0 <= i < |gain| ==> NoneFits(h, w, After(s0, order), gain[i])
    ensures Exhausted(h, w, s0, order)
  {
    hide Fits, Locked, After, Distinct;
    forall v: nat | v < NNodes(h) && v !in Locked(order) ensures !Fits(h, w, After(s0, order), v) {
      assert v in gain[ptrGain[v]];
    }
  }
}
