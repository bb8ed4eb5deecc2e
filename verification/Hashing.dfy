/** Structural hashing: the lossy key of src/base/model/hash.h, the check hasSignature of src/base/model/node.h:69-81,
    and the lookup of src/base/model/node.h:173-216. */
module Hashing {
  import opened Sequences
  import opened Netlist
  import opened GateFunctions
  import opened GateAgreement

  const WORD16 := 0x1_0000
  const WORD32 := 0x1_0000_0000
  const WORD64 := 0x1_0000_0000_0000_0000
  const PRIME := 37

  datatype Key = Key(netId: nat, func: nat, arity: nat, ihash: nat)

  function Ids(inputs: seq<Signal>): (r: seq<nat>)
    ensures |r| == |inputs| && forall i :: 0 <= i < |r| ==> r[i] == inputs[i].node
  {
    if inputs == [] then [] else Ids(inputs[..|inputs| - 1]) + [inputs[|inputs| - 1].node]
  }

  // ----- sorting

  ghost predicate Ascending(s: seq<nat>) { forall i, j :: 0 <= i < j < |s| ==> s[i] <= s[j] }

  function InsertSorted(x: nat, s: seq<nat>): seq<nat> {
    if s == [] || s[|s| - 1] <= x then s + [x] else InsertSorted(x, s[..|s| - 1]) + [s[|s| - 1]]
  }

  function Sort(s: seq<nat>): seq<nat> {
    if s == [] then [] else InsertSorted(s[|s| - 1], Sort(s[..|s| - 1]))
  }

  ghost predicate SameTimes(a: seq<nat>, b: seq<nat>) { forall x :: Times(a, x) == Times(b, x) }

  ghost predicate AtMost(s: seq<nat>, m: nat) { forall i :: 0 <= i < |s| ==> s[i] <= m }

  lemma {:induction false} InsertSortedAtMost(x: nat, s: seq<nat>, m: nat)
    requires x <= m && AtMost(s, m)
    ensures AtMost(InsertSorted(x, s), m) && |InsertSorted(x, s)| == |s| + 1
    decreases |s|
  {
    if s != [] && x < s[|s| - 1] { InsertSortedAtMost(x, s[..|s| - 1], m); }
  }

  lemma AscendingAppend(s: seq<nat>, m: nat)
    requires Ascending(s) && AtMost(s, m)
    ensures Ascending(s + [m])
  {
  }

  lemma {:induction false} InsertSortedAscends(x: nat, s: seq<nat>)
    requires Ascending(s)
    ensures Ascending(InsertSorted(x, s)) && |InsertSorted(x, s)| == |s| + 1
    decreases |s|
  {
    if s == [] || s[|s| - 1] <= x {
      assert AtMost(s, x);
      AscendingAppend(s, x);
    } else {
      var front, last := s[..|s| - 1], s[|s| - 1];
      assert Ascending(front) && AtMost(front, last);
      hide Ascending, AtMost;
      InsertSortedAscends(x, front);
      InsertSortedAtMost(x, front, last);
      AscendingAppend(InsertSorted(x, front), last);
    }
  }

  lemma {:induction false} InsertSortedTimes(x: nat, s: seq<nat>, y: nat)
    ensures Times(InsertSorted(x, s), y) == Times(s, y) + (if x == y then 1 else 0)
    decreases |s|
  {
    if s == [] || s[|s| - 1] <= x {
      TimesAppend(s, [x], y);
    } else {
      var front, last := s[..|s| - 1], s[|s| - 1];
      InsertSortedTimes(x, front, y);
      TimesAppend(InsertSorted(x, front), [last], y);
    }
  }

  lemma {:induction false} SortPart(s: seq<nat>)
    ensures Ascending(Sort(s)) && |Sort(s)| == |s| && SameTimes(Sort(s), s)
    decreases |s|
  {
    hide Ascending, InsertSorted;
    if s != [] {
      SortPart(s[..|s| - 1]);
      InsertSortedAscends(s[|s| - 1], Sort(s[..|s| - 1]));
      forall y ensures Times(Sort(s), y) == Times(s, y) {
        InsertSortedTimes(s[|s| - 1], Sort(s[..|s| - 1]), y);
        assert Times(Sort(s[..|s| - 1]), y) == Times(s[..|s| - 1], y);
      }
    } else {
      assert Ascending(Sort(s)) by { AscendingEmpty(); }
    }
  }

  lemma AscendingEmpty()
    ensures Ascending([])
  {
  }

  lemma {:induction false} AscendingUnique(a: seq<nat>, b: seq<nat>)
    requires Ascending(a) && Ascending(b) && SameTimes(a, b)
    ensures a == b
    decreases |a|
  {
    if a == [] {
    } else {
      var x := a[|a| - 1];
      assert Times(b, x) > 0;
      TimesPositive(b, x);
      var y := b[|b| - 1];
      assert Times(a, y) > 0;
      TimesPositive(a, y);
      assert x == y;
      var a', b' := a[..|a| - 1], b[..|b| - 1];
      forall z ensures Times(a', z) == Times(b', z) { assert Times(a, z) == Times(b, z); }
      AscendingUnique(a', b');
    }
  }

  // ----- the key

  /** ihash of src/base/model/hash.h:42-46, with 64-bit wrap-around. */
  function Poly(hashes: seq<nat>): (r: nat)
    ensures r < WORD64
  {
    if hashes == [] then 0 else (Poly(hashes[..|hashes| - 1]) * PRIME % WORD64 + hashes[|hashes| - 1]) % WORD64
  }

  /** The same number without wrap-around. */
  function Horner(hashes: seq<nat>): nat {
    if hashes == [] then 0 else Horner(hashes[..|hashes| - 1]) * PRIME + hashes[|hashes| - 1]
  }

  lemma WrapOnce(x: nat, y: nat)
    ensures (x % WORD64 * PRIME % WORD64 + y) % WORD64 == (x * PRIME + y) % WORD64
  {
    var q := x / WORD64;
    assert x * PRIME == x % WORD64 * PRIME + q * PRIME * WORD64;
  }

  /** Wrapping around at every step is wrapping around once at the end. */
  lemma {:induction false} PolyIsHorner(hashes: seq<nat>)
    ensures Poly(hashes) == Horner(hashes) % WORD64
    decreases |hashes|
  {
    if hashes != [] {
      PolyIsHorner(hashes[..|hashes| - 1]);
      WrapOnce(Horner(hashes[..|hashes| - 1]), hashes[|hashes| - 1]);
    }
  }

  function KeyOf(netId: nat, func: Func, ids: seq<nat>): Key {
    Key(netId, Code(func) % WORD16, |ids| % WORD16, Poly(if IsCommutative(func) then Sort(ids) else ids))
  }

  /** What a key says about the inputs: in ascending order for a commutative function, and in their own order otherwise.
      */
  ghost predicate Fingerprint(func: Func, ids: seq<nat>, ihash: nat) {
    exists list :: ihash == Horner(list) % WORD64 &&
      if IsCommutative(func) then Ascending(list) && SameTimes(list, ids) else list == ids
  }

  lemma KeyHasFingerprint(netId: nat, func: Func, ids: seq<nat>)
    ensures Fingerprint(func, ids, KeyOf(netId, func, ids).ihash)
  {
    hide Horner, Poly, Ascending, SameTimes, Sort;
    var list := if IsCommutative(func) then Sort(ids) else ids;
    SortPart(ids);
    PolyIsHorner(list);
  }

  /** Requests with the same key are of the same net, have the same symbol if codes are below 2^16, and as many inputs
      modulo 2^16. */
  lemma KeysTellApart(m: nat, f: Func, a: seq<nat>, n: nat, g: Func, b: seq<nat>)
    requires KeyOf(m, f, a) == KeyOf(n, g, b)
    ensures m == n && |a| % WORD16 == |b| % WORD16
    ensures Code(f) < WORD16 && Code(g) < WORD16 ==> f == g
  {
    hide Poly, Sort, Code;
    if Code(f) < WORD16 && Code(g) < WORD16 { CodesDiffer(f, g); }
  }

  /** The constructor of NodeHashKey; std::hash of a number is the number itself. */
  method MakeKey(netId: nat, func: Func, inputs: seq<Signal>) returns (key: Key)
    ensures key.netId == netId && key.func == Code(func) % 0x1_0000 && key.arity == |inputs| % 0x1_0000
    ensures Fingerprint(func, Ids(inputs), key.ihash)
    ensures key == KeyOf(netId, func, Ids(inputs))
  {
    hide Poly, Sort, Ids, Code, Fingerprint;
    KeyHasFingerprint(netId, func, Ids(inputs));
    var hashes := Hashes(inputs);
    if IsCommutative(func) {
      hashes := Sort(hashes);
    }
    var ihash := Combine(hashes);
    key := Key(netId, Code(func) % WORD16, |inputs| % WORD16, ihash);
  }

  method Hashes(inputs: seq<Signal>) returns (hashes: seq<nat>)
    ensures hashes == Ids(inputs)
  {
    hide Ids;
    hashes := [];
    for i := 0 to |inputs|
      invariant |hashes| == i && hashes == Ids(inputs)[..i]
    {
      hashes := hashes + [inputs[i].node];
    }
    assert Ids(inputs)[..|inputs|] == Ids(inputs);
  }

  method Combine(hashes: seq<nat>) returns (ihash: nat)
    ensures ihash == Poly(hashes)
  {
    hide Poly;
    ihash := 0;
    PolyStart();
    for i := 0 to |hashes|
      invariant ihash == Poly(hashes[..i])
    {
      PolyStep(hashes[..i], hashes[i]);
      assert hashes[..i + 1] == hashes[..i] + [hashes[i]];
      ihash := ihash * PRIME % WORD64;
      ihash := (ihash + hashes[i]) % WORD64;
    }
    assert hashes[..|hashes|] == hashes;
  }

  lemma PolyStart()
    ensures Poly([]) == 0
  {
  }

  lemma PolyStep(s: seq<nat>, x: nat)
    ensures Poly(s + [x]) == (Poly(s) * PRIME % WORD64 + x) % WORD64
  {
    assert (s + [x])[..|s|] == s;
  }

  /** The key of a commutative function does not depend on the order of its inputs. */
  lemma KeyIgnoresOrder(netId: nat, func: Func, a: seq<nat>, b: seq<nat>)
    requires IsCommutative(func) && SameTimes(a, b)
    ensures KeyOf(netId, func, a) == KeyOf(netId, func, b)
  {
    SortPart(a);
    SortPart(b);
    AscendingUnique(Sort(a), Sort(b));
  }

  // ----- hasSignature

  /** The inputs part of hasSignature: as many inputs, and no more different ones in both lists than that. */
  predicate Accepts(ids: seq<nat>, own: seq<nat>) {
    |ids| == |own| && |Elements(ids) + Elements(own)| == |ids|
  }

  predicate HasSignature(node: NodeValue, func: Func, ids: seq<nat>) {
    func == node.func && Accepts(ids, Ids(node.inputs))
  }

  method CheckSignature(node: NodeValue, func: Func, inputs: seq<Signal>) returns (b: bool)
    ensures b <==> HasSignature(node, func, Ids(inputs))
  {
    if func != node.func || |inputs| != |node.inputs| {
      return false;
    }
    var inputSet: set<nat> := {};
    for i := 0 to |inputs|
      invariant inputSet == Elements(Ids(inputs)[..i]) + Elements(Ids(node.inputs)[..i])
    {
      ghost var a, b := Ids(inputs), Ids(node.inputs);
      assert a[..i + 1] == a[..i] + [a[i]] && b[..i + 1] == b[..i] + [b[i]];
      inputSet := inputSet + {inputs[i].node};
      inputSet := inputSet + {node.inputs[i].node};
    }
    assert Ids(inputs)[..|inputs|] == Ids(inputs) && Ids(node.inputs)[..|inputs|] == Ids(node.inputs);
    b := |inputSet| == |inputs|;
  }

  /** Two lists without repetitions hold each element equally often exactly when their elements are the same. */
  lemma DistinctSameTimes(a: seq<nat>, b: seq<nat>)
    requires Distinct(a) && Distinct(b)
    ensures SameTimes(a, b) <==> Elements(a) == Elements(b)
  {
    forall x ensures Times(a, x) == (if x in Elements(a) then 1 else 0)
             ensures Times(b, x) == (if x in Elements(b) then 1 else 0) {
      TimesDistinct(a, x);
      TimesDistinct(b, x);
    }
  }

  lemma SameTimesSameElements(a: seq<nat>, b: seq<nat>)
    requires SameTimes(a, b)
    ensures Elements(a) == Elements(b)
  {
    forall x ensures x in a <==> x in b {
      TimesPositive(a, x);
      TimesPositive(b, x);
    }
  }

  /** What hasSignature accepts is a permutation of the request exactly when neither list repeats an input; so repeated
      inputs are never matched with their permutations, and can be matched with something else. */
  lemma AcceptedIsPermutationIff(ids: seq<nat>, own: seq<nat>)
    requires Accepts(ids, own)
    ensures SameTimes(ids, own) <==> Distinct(ids) && Distinct(own)
  {
    hide Distinct, SameTimes;
    var both := Elements(ids) + Elements(own);
    ElementsSize(ids);
    ElementsSize(own);
    if SameTimes(ids, own) {
      SameTimesSameElements(ids, own);
      assert both == Elements(ids);
    }
    if Distinct(ids) && Distinct(own) {
      SubsetSize(Elements(ids), both);
      SubsetSize(Elements(own), both);
      DistinctSameTimes(ids, own);
    }
  }

  /** On lists without repetitions hasSignature decides whether the inputs agree up to order. */
  lemma AcceptsIffPermutation(ids: seq<nat>, own: seq<nat>)
    requires Distinct(ids) && Distinct(own)
    ensures Accepts(ids, own) <==> SameTimes(ids, own)
  {
    hide Distinct, SameTimes;
    ElementsSize(ids);
    ElementsSize(own);
    if Accepts(ids, own) { AcceptedIsPermutationIff(ids, own); }
    if SameTimes(ids, own) {
      SameTimesSameElements(ids, own);
      assert Elements(ids) + Elements(own) == Elements(ids);
    }
  }

  /** A permutation is accepted exactly when it does not repeat an input. */
  lemma PermutationAcceptedIff(ids: seq<nat>, own: seq<nat>)
    requires SameTimes(ids, own)
    ensures Accepts(ids, own) <==> Distinct(ids) && Distinct(own)
  {
    hide Distinct, Accepts;
    if Accepts(ids, own) { AcceptedIsPermutationIff(ids, own); }
    if Distinct(ids) && Distinct(own) { AcceptsIffPermutation(ids, own); }
  }

  /** A node that is accepted for AND, OR, NAND or NOR computes what was requested exactly when neither list repeats an
      input. */
  lemma AcceptedAgreesIff(func: Func, ids: seq<nat>, own: seq<nat>)
    requires AndOr(func) && Accepts(ids, own)
    ensures Agree(func, ids, own) <==> Distinct(ids) && Distinct(own)
  {
    hide Distinct, Agree;
    var both := Elements(ids) + Elements(own);
    AgreeOnElements(func, ids, own);
    ElementsSize(ids);
    ElementsSize(own);
    SubsetSize(Elements(ids), both);
    SubsetSize(Elements(own), both);
    if Elements(ids) == Elements(own) { assert both == Elements(ids); }
  }

  /** A request AND(1, 2) accepts a node rewired to AND(1, 1), which computes something else. */
  lemma RepeatedInputsMisjudged()
    ensures Accepts([1, 2], [1, 1]) && !Agree(AND, [1, 2], [1, 1])
  {
    hide Agree;
    var pair: seq<nat>, ones: seq<nat> := [1, 2], [1, 1];
    assert Elements(pair) == {1, 2} && Elements(ones) == {1};
    assert Elements(pair) + Elements(ones) == {1, 2};
    hide Elements;
    AcceptedAgreesIff(AND, pair, ones);
    assert ones[0] == ones[1];
  }

  /** A request XOR(1, 1) accepts XOR(2, 2), which computes the same. */
  lemma RepeatedInputsCancel()
    ensures Accepts([1, 1], [2, 2]) && Agree(XOR, [1, 1], [2, 2])
  {
    hide Agree, Times;
    var ones: seq<nat>, twos: seq<nat> := [1, 1], [2, 2];
    assert Elements(ones) == {1} && Elements(twos) == {2};
    assert Elements(ones) + Elements(twos) == {1, 2};
    hide Elements;
    forall x ensures Times(ones, x) % 2 == Times(twos, x) % 2 == 0 {
      TimesOfEqual(1, x);
      TimesOfEqual(2, x);
    }
    AgreeOnParity(XOR, ones, twos);
  }

  lemma TimesOfEqual(y: nat, x: nat)
    ensures Times([y, y], x) == if x == y then 2 else 0
  {
    assert [y, y] == [y] + [y];
    TimesAppend([y], [y], x);
  }

  // ----- the lookup

  datatype Option<T> = None | Some(value: T)

  /** Node::get: constants apart, a request without inputs is never matched, an identity is its own input, and any other
      request goes by its key and hasSignature. */
  ghost function Lookup(net: Net, hashing: map<Key, nat>, netId: nat, func: Func, inputs: seq<Signal>): Option<nat> {
    if !IsConstant(func) && inputs == [] then None
    else if IsIdentity(func) && |inputs| == 1 then Some(inputs[0].node)
    else
      var key := KeyOf(netId, func, Ids(inputs));
      if key in hashing && hashing[key] < |net| && HasSignature(net[hashing[key]], func, Ids(inputs))
      then Some(hashing[key]) else None
  }

  predicate AllAlways(inputs: seq<Signal>) { forall i :: 0 <= i < |inputs| ==> inputs[i].event == ALWAYS }

  /** The valuation gives every combinational node the value of its function on its inputs. */
  ghost predicate Consistent(net: Net, val: nat -> bool) {
    forall t: nat :: t < |net| && Combinational(net[t].func) && AllAlways(net[t].inputs) ==>
      val(t) == Eval(net[t].func, Values(val, Ids(net[t].inputs)))
  }

  /** A hit that may be shared: it needs at most one input, or a commutative function without repeated inputs, however
      often nodes have been rewired since they entered the table. */
  ghost predicate Shareable(net: Net, t: nat, func: Func, inputs: seq<Signal>)
    requires t < |net|
  {
    |inputs| <= 1 || (IsCommutative(func) && Distinct(Ids(inputs)) && Distinct(Ids(net[t].inputs)))
  }

  lemma ElementsOfOne(a: seq<nat>, b: seq<nat>)
    requires Accepts(a, b) && |a| <= 1
    ensures a == b
  {
    if |a| == 1 {
      assert a[0] in Elements(a) + Elements(b) && b[0] in Elements(a) + Elements(b);
      if a[0] != b[0] {
        SubsetSize({a[0], b[0]}, Elements(a) + Elements(b));
      }
    }
  }

  /** What passes the check and may be shared computes what was requested. */
  lemma SharedComputesSame(func: Func, ids: seq<nat>, own: seq<nat>, val: nat -> bool)
    requires Accepts(ids, own) && Combinational(func)
    requires |ids| <= 1 || (IsCommutative(func) && Distinct(ids) && Distinct(own))
    ensures Eval(func, Values(val, ids)) == Eval(func, Values(val, own))
  {
    hide Distinct, Eval, Values;
    if |ids| <= 1 {
      ElementsOfOne(ids, own);
    } else {
      AcceptedIsPermutationIff(ids, own);
      SameTimesSameElements(ids, own);
      CommutativeOnSets(func, val, ids, own);
    }
  }

  /** Sharing a hit is sound: under every consistent valuation the node found has the value that the requested gate
      would have, also when its table entry is stale. */
  lemma LookupSound(net: Net, hashing: map<Key, nat>, netId: nat, func: Func, inputs: seq<Signal>, val: nat -> bool)
    requires Lookup(net, hashing, netId, func, inputs).Some? && Combinational(func)
    requires IsIdentity(func) ==> |inputs| == 1
    requires !IsIdentity(func) ==>
      var t := Lookup(net, hashing, netId, func, inputs).value;
      Shareable(net, t, func, inputs) && AllAlways(net[t].inputs)
    requires Consistent(net, val)
    ensures val(Lookup(net, hashing, netId, func, inputs).value) == Eval(func, Values(val, Ids(inputs)))
  {
    hide Distinct, KeyOf, Accepts;
    var t := Lookup(net, hashing, netId, func, inputs).value;
    if !IsIdentity(func) {
      assert HasSignature(net[t], func, Ids(inputs));
      hide Lookup, Eval, Ids, Values, Combinational;
      SharedComputesSame(func, Ids(inputs), Ids(net[t].inputs), val);
    }
  }

  // ----- entering and finding

  /** A node entered under a new key is found for its own inputs exactly when they do not repeat, whatever its function,
      constants without inputs included. */
  lemma AddedIsFoundByItselfIff(net: Net, hashing: map<Key, nat>, netId: nat, t: nat)
    requires t < |net| && !IsIdentity(net[t].func) && (IsConstant(net[t].func) || net[t].inputs != [])
    requires KeyOf(netId, net[t].func, Ids(net[t].inputs)) !in hashing
    ensures Lookup(net, hashing[KeyOf(netId, net[t].func, Ids(net[t].inputs)) := t], netId, net[t].func, net[t].inputs)
            == (if Distinct(Ids(net[t].inputs)) then Some(t) else None)
  {
    hide Distinct, KeyOf, Ids;
    ElementsSize(Ids(net[t].inputs));
    assert Elements(Ids(net[t].inputs)) + Elements(Ids(net[t].inputs)) == Elements(Ids(net[t].inputs));
  }

  /** A node that is in the table only for one net does not answer requests of another. */
  lemma OtherNetsDoNotShare(
    net: Net, hashing: map<Key, nat>, t: nat, m: nat, n: nat, func: Func, inputs: seq<Signal>)
    requires forall key :: key in hashing && hashing[key] == t ==> key.netId == m
    requires m != n && !IsIdentity(func)
    ensures Lookup(net, hashing, n, func, inputs) != Some(t)
  {
    hide Poly, Sort, Ids, Code, HasSignature;
  }

  /** A commutative gate entered under a new key is found again by every permutation of its inputs exactly when they
      do not repeat. */
  lemma AddedIsFoundIff(net: Net, hashing: map<Key, nat>, netId: nat, t: nat, inputs: seq<Signal>)
    requires t < |net| && IsCommutative(net[t].func) && inputs != []
    requires SameTimes(Ids(inputs), Ids(net[t].inputs))
    requires KeyOf(netId, net[t].func, Ids(net[t].inputs)) !in hashing
    ensures Lookup(net, hashing[KeyOf(netId, net[t].func, Ids(net[t].inputs)) := t], netId, net[t].func, inputs)
            == (if Distinct(Ids(inputs)) && Distinct(Ids(net[t].inputs)) then Some(t) else None)
  {
    hide Distinct, KeyOf, Ids, SameTimes, Accepts;
    KeyIgnoresOrder(netId, net[t].func, Ids(inputs), Ids(net[t].inputs));
    PermutationAcceptedIff(Ids(inputs), Ids(net[t].inputs));
  }
}
