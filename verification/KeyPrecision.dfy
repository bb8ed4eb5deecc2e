/** How much the key of src/base/model/hash.h and hasSignature tell together about the inputs of a node. */
module KeyPrecision {
  import opened Sequences
  import opened Netlist
  import opened GateFunctions
  import opened Hashing

  /** Identifiers have 32 bits. */
  ghost predicate Narrow(ids: seq<nat>) { forall i :: 0 <= i < |ids| ==> ids[i] < WORD32 }

  lemma PolyOfPair(x: nat, y: nat)
    requires x < WORD32 && y < WORD32
    ensures Poly([x, y]) == PRIME * x + y
  {
    hide Poly;
    PolyStart();
    PolyStep([], x);
    PolyStep([x], y);
    assert [] + [x] == [x] && [x] + [y] == [x, y];
  }

  lemma SortOfPair(x: nat, y: nat)
    ensures Sort([x, y]) == if x <= y then [x, y] else [y, x]
  {
    assert [x, y][..1] == [x] && [x][..0] == [];
    assert Sort([x]) == [x];
    assert InsertSorted(y, []) == [y];
  }

  lemma PairsCollide(a: nat, b: nat, c: nat, d: nat)
    requires PRIME * a + b == PRIME * c + d && |{a, b} + {c, d}| == 2
    ensures a == c && b == d
  {
    if a != b {
      SubsetSize({a, b}, {a, b} + {c, d});
      assert c in {a, b} && d in {a, b};
    } else if a != c {
      SubsetSize({a, c}, {a, b} + {c, d});
    }
  }

  /** For at most two inputs, 32-bit identifiers and an entry that is not stale (the node still has the key it was
      entered under), a hit has the very inputs requested: in their order, or sorted for a commutative function, even
      when inputs repeat. */
  lemma FreshPairIsExact(netId: nat, func: Func, ids: seq<nat>, own: seq<nat>)
    requires |ids| <= 2 && Accepts(ids, own) && KeyOf(netId, func, ids) == KeyOf(netId, func, own)
    requires Narrow(ids) && Narrow(own)
    ensures if IsCommutative(func) then Sort(own) == Sort(ids) else own == ids
  {
    hide KeyOf, Sort, Elements;
    if |ids| == 2 {
      PairKeysExact(netId, func, ids, own);
    } else {
      ElementsOfOne(ids, own);
    }
  }

  lemma PairKeysExact(netId: nat, func: Func, ids: seq<nat>, own: seq<nat>)
    requires |ids| == |own| == 2 && ids[0] < WORD32 && ids[1] < WORD32 && own[0] < WORD32 && own[1] < WORD32
    requires KeyOf(netId, func, ids) == KeyOf(netId, func, own) && |Elements(ids) + Elements(own)| == 2
    ensures if IsCommutative(func) then Sort(own) == Sort(ids) else own == ids
  {
    hide Poly, Sort, Elements;
    if IsCommutative(func) {
      SortedPair(ids);
      SortedPair(own);
      OrderedPairs(Sort(ids), Sort(own));
    } else {
      OrderedPairs(ids, own);
    }
  }

  lemma SortedPair(s: seq<nat>)
    requires |s| == 2 && s[0] < WORD32 && s[1] < WORD32
    ensures |Sort(s)| == 2 && Sort(s)[0] < WORD32 && Sort(s)[1] < WORD32 && Elements(Sort(s)) == Elements(s)
  {
    SortOfPair(s[0], s[1]);
    assert s == [s[0], s[1]];
  }

  lemma OrderedPairs(ids: seq<nat>, own: seq<nat>)
    requires |ids| == |own| == 2 && ids[0] < WORD32 && ids[1] < WORD32 && own[0] < WORD32 && own[1] < WORD32
    requires Poly(ids) == Poly(own) && |Elements(ids) + Elements(own)| == 2
    ensures own == ids
  {
    hide Poly;
    assert ids == [ids[0], ids[1]] && own == [own[0], own[1]];
    assert Elements(ids) == {ids[0], ids[1]} && Elements(own) == {own[0], own[1]};
    PolyOfPair(ids[0], ids[1]);
    PolyOfPair(own[0], own[1]);
    PairsCollide(ids[0], ids[1], own[0], own[1]);
  }

  /** For a commutative function an entry that is not stale is a permutation of the request exactly when no input
      repeats, which cannot happen with two inputs. */
  lemma FreshPermutationIff(netId: nat, func: Func, ids: seq<nat>, own: seq<nat>)
    requires IsCommutative(func) && Accepts(ids, own) && KeyOf(netId, func, ids) == KeyOf(netId, func, own)
    requires Narrow(ids) && Narrow(own)
    ensures SameTimes(ids, own) <==> Distinct(ids) && Distinct(own)
    ensures |ids| <= 2 ==> SameTimes(ids, own)
  {
    AcceptedIsPermutationIff(ids, own);
    hide KeyOf, Accepts, Distinct;
    if |ids| <= 2 {
      FreshPairIsExact(netId, func, ids, own);
      SortedAlike(ids, own);
    }
  }

  ghost predicate SameInputs(func: Func, ids: seq<nat>, own: seq<nat>) {
    if IsCommutative(func) then SameTimes(ids, own) else ids == own
  }

  /** Among lists of n 32-bit identifiers, key and signature together tell the inputs. */
  ghost predicate ExactAt(netId: nat, func: Func, n: nat) {
    forall ids, own ::
      (Accepts(ids, own) && |ids| == n && Narrow(ids) && Narrow(own) &&
       KeyOf(netId, func, ids) == KeyOf(netId, func, own)) ==> SameInputs(func, ids, own)
  }

  function Further(k: nat): (s: seq<nat>)
    ensures |s| == k && forall i :: 0 <= i < k ==> s[i] == 39 + i
  {
    if k == 0 then [] else Further(k - 1) + [38 + k]
  }

  lemma {:induction false} PolySuffix(a: seq<nat>, b: seq<nat>, s: seq<nat>)
    requires Poly(a) == Poly(b)
    ensures Poly(a + s) == Poly(b + s)
    decreases |s|
  {
    hide Poly;
    if s == [] {
      assert a + s == a && b + s == b;
    } else {
      var front, last := s[..|s| - 1], s[|s| - 1];
      PolySuffix(a, b, front);
      PolyStep(a + front, last);
      PolyStep(b + front, last);
      assert a + s == a + front + [last] && b + s == b + front + [last];
    }
  }

  lemma AscendingStays(s: seq<nat>)
    requires Ascending(s)
    ensures Sort(s) == s
  {
    SortPart(s);
    AscendingUnique(Sort(s), s);
  }

  lemma PolyOfTriple(x: nat, y: nat, z: nat)
    requires x < WORD32 && y < WORD32 && z < WORD32
    ensures Poly([x, y, z]) == PRIME * (PRIME * x + y) + z
  {
    hide Poly;
    PolyOfPair(x, y);
    PolyStep([x, y], z);
    assert [x, y] + [z] == [x, y, z];
  }

  /** Three numbers below 39, all of them in one of the two triples, and the same further ones: accepted. */
  lemma TriplesAccepted(a: seq<nat>, b: seq<nat>, k: nat)
    requires |a| == |b| == 3 && Elements(a) + Elements(b) == {0, 1, 38}
    ensures Accepts(a + Further(k), b + Further(k))
  {
    var s := Further(k);
    DistinctTriple(k);
    hide Distinct, Further;
    ElementsAppend(a, s);
    ElementsAppend(b, s);
    hide Elements;
    assert Elements(a + s) + Elements(b + s) == {0, 1, 38} + Elements(s);
  }

  lemma DistinctTriple(k: nat)
    ensures |{0, 1, 38} + Elements(Further(k))| == 3 + k
  {
    var c: seq<nat>, s := [0, 1, 38], Further(k);
    assert Elements(c) == {0, 1, 38};
    assert Distinct(c + s);
    hide Distinct, Elements, Further;
    ElementsSize(c + s);
    ElementsAppend(c, s);
  }

  /** The inputs 1, 0, 38 and 0, 38, 1 have the same key in this order, also with the same inputs behind them. */
  lemma OrdersCollide(netId: nat, func: Func, k: nat)
    requires !IsCommutative(func)
    ensures var ids, own := [1, 0, 38] + Further(k), [0, 38, 1] + Further(k);
            KeyOf(netId, func, ids) == KeyOf(netId, func, own) && Accepts(ids, own) &&
            Distinct(ids) && Distinct(own) && ids != own
  {
    hide IsCommutative, Further, Poly, Accepts;
    var a: seq<nat>, b: seq<nat> := [1, 0, 38], [0, 38, 1];
    PolyOfTriple(1, 0, 38);
    PolyOfTriple(0, 38, 1);
    PolySuffix(a, b, Further(k));
    assert Elements(a) == {0, 1, 38} && Elements(b) == {0, 1, 38};
    TriplesAccepted(a, b, k);
    assert (a + Further(k))[0] != (b + Further(k))[0];
  }

  /** The inputs 0, 1, 1 and 0, 0, 38 have the same key when sorted, also with the same larger inputs behind them. */
  lemma RepetitionsCollide(netId: nat, func: Func, k: nat)
    requires IsCommutative(func)
    ensures var ids, own := [0, 1, 1] + Further(k), [0, 0, 38] + Further(k);
            KeyOf(netId, func, ids) == KeyOf(netId, func, own) && Accepts(ids, own) &&
            !Distinct(ids) && !SameTimes(ids, own)
  {
    hide IsCommutative, Poly, Accepts, Sort, SameTimes;
    var a: seq<nat>, b: seq<nat> := [0, 1, 1], [0, 0, 38];
    var ids, own := a + Further(k), b + Further(k);
    assert Ascending(ids) && Ascending(own);
    AscendingStays(ids);
    AscendingStays(own);
    PolyOfTriple(0, 1, 1);
    PolyOfTriple(0, 0, 38);
    PolySuffix(a, b, Further(k));
    assert Elements(a) == {0, 1} && Elements(b) == {0, 38};
    assert Elements(a) + Elements(b) == {0, 1, 38};
    TriplesAccepted(a, b, k);
    assert ids[1] == ids[2] && !Distinct(ids);
    AcceptedIsPermutationIff(ids, own);
  }

  lemma NotExact(netId: nat, func: Func, ids: seq<nat>, own: seq<nat>)
    requires Accepts(ids, own) && Narrow(ids) && Narrow(own) && KeyOf(netId, func, ids) == KeyOf(netId, func, own)
    requires !SameInputs(func, ids, own)
    ensures !ExactAt(netId, func, |ids|)
  {
    hide KeyOf, SameInputs;
  }

  /** In a table without stale entries a hit has the requested inputs, whatever they are, exactly for functions of at
      most two inputs. (Beyond, the inputs given here need as many 32-bit identifiers, and a few more.) */
  lemma FreshExactIff(netId: nat, func: Func, n: nat)
    requires n + 36 <= WORD32
    ensures ExactAt(netId, func, n) <==> n <= 2
  {
    hide KeyOf, Accepts, SameTimes, IsCommutative, Sort, Distinct;
    if n > 2 {
      hide ExactAt;
      if IsCommutative(func) {
        RepetitionsCollide(netId, func, n - 3);
        NotExact(netId, func, [0, 1, 1] + Further(n - 3), [0, 0, 38] + Further(n - 3));
      } else {
        OrdersCollide(netId, func, n - 3);
        NotExact(netId, func, [1, 0, 38] + Further(n - 3), [0, 38, 1] + Further(n - 3));
      }
    } else {
      forall ids, own |
        Accepts(ids, own) && |ids| == n && Narrow(ids) && Narrow(own) &&
        KeyOf(netId, func, ids) == KeyOf(netId, func, own)
        ensures SameInputs(func, ids, own)
      {
        FreshPairIsExact(netId, func, ids, own);
        SortedAlike(ids, own);
      }
    }
  }

  lemma SortedAlike(ids: seq<nat>, own: seq<nat>)
    ensures Sort(ids) == Sort(own) ==> SameTimes(ids, own)
  {
    SortPart(ids);
    SortPart(own);
  }
}
