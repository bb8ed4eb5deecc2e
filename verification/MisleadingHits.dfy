/** Runs of the node storage after which the hash table offers a gate that computes something else. */
module MisleadingHits {
  import opened Sequences
  import opened Netlist
  import opened GateFunctions
  import opened GateAgreement
  import opened Hashing
  import opened MajorityAgreement
  import opened KeyPrecision
  import opened Nodes

  /** Continuous signals from the given nodes. */
  function Signals(ids: seq<nat>): (r: seq<Signal>)
    ensures |r| == |ids| && forall i :: 0 <= i < |r| ==> r[i] == Signal(ALWAYS, ids[i], 0)
  {
    if ids == [] then [] else Signals(ids[..|ids| - 1]) + [Signal(ALWAYS, ids[|ids| - 1], 0)]
  }

  lemma IdsOfSignals(ids: seq<nat>)
    ensures Ids(Signals(ids)) == ids
  {
  }

  lemma RewiredNode(net: Net, id: nat, inputs: seq<Signal>)
    requires id < |net|
    ensures |SetInputs(net, id, inputs)| == |net|
    ensures SetInputs(net, id, inputs)[id].func == net[id].func && SetInputs(net, id, inputs)[id].inputs == inputs
  {
  }

  lemma AllocatedNode(net: Net, func: Func, inputs: seq<Signal>)
    ensures |Allocate(net, func, inputs)| == |net| + 1
    ensures Allocate(net, func, inputs)[|net|].func == func && Allocate(net, func, inputs)[|net|].inputs == inputs
  {
  }

  /** Input nodes, none of them in the hash table, and a gate on top of them that is. */
  method InputsAndGate(n: nat, func: Func, own: seq<nat>) returns (storage: Storage)
    requires n < WORD16 && forall i :: 0 <= i < |own| ==> own[i] < n
    ensures storage.Valid() && fresh(storage) && fresh(storage.nodes)
    ensures |storage.net| == n + 1 && storage.net[n].func == func && Ids(storage.net[n].inputs) == own
    ensures storage.hashing == map[KeyOf(0, func, own) := n]
  {
    hide Allocate, Ids, KeyOf;
    storage := new Storage();
    for i := 0 to n
      invariant storage.Valid() && |storage.net| == i && storage.hashing == map[]
      invariant fresh(storage) && fresh(storage.nodes)
    {
      AllocatedNode(storage.net, IN, []);
      ghost var before := storage.nodes;
      var id := storage.Allocate(IN, []);
      assert storage.nodes == before + [storage.nodes[id]];
    }
    AllocatedNode(storage.net, func, Signals(own));
    IdsOfSignals(own);
    ghost var before := storage.nodes;
    var gate := storage.Allocate(func, Signals(own));
    assert storage.nodes == before + [storage.nodes[gate]];
    storage.Add(0, gate);
  }

  /** Node 3 enters the table as AND(1, 2) and is then rewired to AND(1, 1). A request for AND(1, 2) still gets it. */
  method ShareRewired() returns (storage: Storage, found: Option<nat>)
    ensures storage.Valid() && storage.hashing == map[KeyOf(0, AND, [1, 2]) := 3]
    ensures |storage.net| == 4 && storage.net[3].func == AND && Ids(storage.net[3].inputs) == [1, 1]
    ensures found == Lookup(storage.net, storage.hashing, 0, AND, Signals([1, 2])) == Some(3)
    ensures !Agree(AND, [1, 2], [1, 1])
  {
    hide SetInputs, Ids, KeyOf, Accepts, Agree, Elements, Elsewhere, UsesInOrder;
    storage := InputsAndGate(3, AND, [1, 2]);
    RewiredNode(storage.net, 3, Signals([1, 1]));
    storage.SetInputs(3, Signals([1, 1]));
    IdsOfSignals([1, 1]);
    IdsOfSignals([1, 2]);
    RepeatedInputsMisjudged();
    found := storage.Get(0, AND, Signals([1, 2]));
  }

  lemma CountedThree(x: nat, y: nat, z: nat, v: nat)
    ensures Times([x, y, z], v) == (if x == v then 1 else 0) + (if y == v then 1 else 0) + (if z == v then 1 else 0)
  {
    TimesAppend([], [x], v);
    TimesAppend([x], [y], v);
    TimesAppend([x, y], [z], v);
    assert [] + [x] == [x] && [x] + [y] == [x, y] && [x, y] + [z] == [x, y, z];
  }

  lemma RepetitionsAccepted(func: Func)
    requires IsCommutative(func)
    ensures KeyOf(0, func, [0, 1, 1]) == KeyOf(0, func, [0, 0, 38]) && Accepts([0, 1, 1], [0, 0, 38])
    ensures !Distinct<nat>([0, 1, 1])
  {
    hide KeyOf, Accepts;
    RepetitionsCollide(0, func, 0);
    assert [0, 1, 1] + Further(0) == [0, 1, 1] && [0, 0, 38] + Further(0) == [0, 0, 38];
  }

  /** All commutative gates of 0, 1, 1 differ from those of 0, 0, 38. The majority is node 1 for the one and node 0 for
      the other. */
  lemma RepetitionsDisagree(func: Func)
    requires IsCommutative(func)
    ensures !Agree(func, [0, 1, 1], [0, 0, 38])
  {
    hide KeyOf, Accepts, Agree, Times, Distinct;
    var a: seq<nat>, b: seq<nat> := [0, 1, 1], [0, 0, 38];
    RepetitionsAccepted(func);
    forall v: nat
      ensures Times(a, v) == if v == 0 then 1 else if v == 1 then 2 else 0
      ensures Times(b, v) == if v == 0 then 2 else if v == 38 then 1 else 0
    {
      CountedThree(0, 1, 1, v);
      CountedThree(0, 0, 38, v);
    }
    if AndOr(func) {
      AcceptedAgreesIff(func, a, b);
    } else if func == MAJ {
      AcceptedMajorityIff(a, b);
    } else {
      assert Times(a, 0) % 2 != Times(b, 0) % 2;
      AgreeOnParity(func, a, b);
    }
  }

  /** Without any rewiring, a request for a commutative gate of 0, 1, 1 gets the gate of 0, 0, 38, which computes
      something else. */
  method ShareRepeated(func: Func) returns (storage: Storage, found: Option<nat>)
    requires IsCommutative(func)
    ensures storage.Valid() && storage.hashing == map[KeyOf(0, func, [0, 0, 38]) := 39]
    ensures |storage.net| == 40 && storage.net[39].func == func && Ids(storage.net[39].inputs) == [0, 0, 38]
    ensures found == Lookup(storage.net, storage.hashing, 0, func, Signals([0, 1, 1])) == Some(39)
    ensures !Agree(func, [0, 1, 1], [0, 0, 38])
  {
    hide Ids, KeyOf, Accepts, Agree, Elements;
    storage := InputsAndGate(39, func, [0, 0, 38]);
    IdsOfSignals([0, 1, 1]);
    RepetitionsAccepted(func);
    RepetitionsDisagree(func);
    found := storage.Get(0, func, Signals([0, 1, 1]));
  }

  lemma FlipFlopsCollide()
    ensures KeyOf(0, DFFrs, [1, 0, 38, 39]) == KeyOf(0, DFFrs, [0, 38, 1, 39])
    ensures Accepts([1, 0, 38, 39], [0, 38, 1, 39])
  {
    hide KeyOf, Accepts;
    OrdersCollide(0, DFFrs, 1);
    assert [1, 0, 38] + Further(1) == [1, 0, 38, 39] && [0, 38, 1] + Further(1) == [0, 38, 1, 39];
  }

  /** Without any rewiring, a request for a flip-flop with data 1, clock 0, reset 38 and set 39 gets the one with data
      0, clock 38 and reset 1. */
  method ShareReordered() returns (storage: Storage, found: Option<nat>)
    ensures storage.Valid() && storage.hashing == map[KeyOf(0, DFFrs, [0, 38, 1, 39]) := 40]
    ensures |storage.net| == 41 && storage.net[40].func == DFFrs && Ids(storage.net[40].inputs) == [0, 38, 1, 39]
    ensures found == Lookup(storage.net, storage.hashing, 0, DFFrs, Signals([1, 0, 38, 39])) == Some(40)
  {
    hide Ids, KeyOf, Accepts, Elements;
    storage := InputsAndGate(40, DFFrs, [0, 38, 1, 39]);
    IdsOfSignals([1, 0, 38, 39]);
    FlipFlopsCollide();
    found := storage.Get(0, DFFrs, Signals([1, 0, 38, 39]));
  }
}
