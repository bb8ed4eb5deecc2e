/** How nets share gates through the one table (src/gate/model/gnet.cpp:93-150): a gate that has been entered is asked
    for again. */
module NetSharing {
  import opened Sequences
  import opened Netlist
  import opened GateFunctions
  import opened Hashing
  import opened Nodes

  /** A node entered under a new key answers the request for its own function and inputs exactly when these do not
      repeat; constants, which have none, always do. */
  method EnterAndAsk(storage: Storage, netId: nat, id: nat) returns (found: Option<nat>)
    requires storage.Valid() && id < |storage.nodes| && !IsIdentity(storage.net[id].func)
    requires IsConstant(storage.net[id].func) || storage.net[id].inputs != []
    requires KeyOf(netId, storage.net[id].func, Ids(storage.net[id].inputs)) !in storage.hashing
    modifies storage`hashing
    ensures storage.Valid()
    ensures found == if Distinct(Ids(storage.net[id].inputs)) then Some(id) else None
  {
    hide Ids, KeyOf, Distinct, Elements;
    storage.Add(netId, id);
    ElementsSize(Ids(storage.net[id].inputs));
    assert Elements(Ids(storage.net[id].inputs)) + Elements(Ids(storage.net[id].inputs)) ==
           Elements(Ids(storage.net[id].inputs));
    hide Lookup;
    found := storage.Get(netId, storage.nodes[id].func, storage.nodes[id].inputs);
    if found.Some? { assert found == Some(found.value); }
  }

  /** A node entered for one net only does not answer what another net asks for, the same function and inputs included.
      */
  method EnterAndAskElsewhere(storage: Storage, m: nat, id: nat, n: nat, func: Func, inputs: seq<Signal>)
    returns (found: Option<nat>)
    requires storage.Valid() && id < |storage.nodes| && m != n && !IsIdentity(func)
    requires forall key :: key in storage.hashing && storage.hashing[key] == id ==> key.netId == m
    modifies storage`hashing
    ensures storage.Valid() && found != Some(id)
  {
    hide Ids, KeyOf, Lookup;
    storage.Add(m, id);
    OtherNetsDoNotShare(storage.net, storage.hashing, id, m, n, func, inputs);
    found := storage.Get(n, func, inputs);
  }
}
