/** Class Node of src/base/model/node.h, with its static storage and hash table as an object of their own. */
module Nodes {
  import opened Sequences
  import opened Netlist
  import opened GateFunctions
  import opened Hashing

  class Node {
    const id: nat
    var func: Func
    var inputs: seq<Signal>
    var links: seq<Link>

    constructor (id: nat, func: Func, inputs: seq<Signal>)
      ensures this.id == id && this.func == func && this.inputs == inputs && links == []
    {
      this.id, this.func, this.inputs, links := id, func, inputs, [];
    }

    method AppendLink(to: nat, i: nat)
      modifies `links
      ensures links == old(links) + [Link(id, to, i)]
    {
      links := links + [Link(id, to, i)];
    }

    /** Moves the links to keep to the front, in their order, and cuts off the rest. */
    method RemoveLink(to: nat, i: nat)
      modifies `links
      ensures Removed(links, old(links), Link(id, to, i)) && links == Without(old(links), Link(id, to, i))
    {
      hide Removed;
      var link := Link(id, to, i);
      var kept := 0;
      for k := 0 to |links|
        invariant kept <= k && |links| == |old(links)| && links[k..] == old(links)[k..]
        invariant links[..kept] == Without(old(links)[..k], link)
      {
        assert links[k] == links[k..][0] == old(links)[k];
        assert old(links)[..k + 1][..k] == old(links)[..k];
        if links[k] != link {
          links := links[kept := links[k]];
          kept := kept + 1;
          assert links[..kept] == links[..kept - 1] + [old(links)[k]];
        }
      }
      assert old(links)[..|old(links)|] == old(links);
      links := links[..kept];
      WithoutRemoves(old(links), link);
    }
  }

  class Storage {
    var nodes: seq<Node>
    var hashing: map<Key, nat>
    /** The nodes as values. */
    ghost var net: Net

    ghost predicate Mirrors()
      reads this, nodes
    {
      && |net| == |nodes|
      && forall i :: 0 <= i < |nodes| ==>
           nodes[i].id == i && nodes[i].func == net[i].func && nodes[i].inputs == net[i].inputs &&
           nodes[i].links == net[i].links
    }

    /** Links are the inverse of inputs for all nodes, and the hash table names nodes of the storage. */
    ghost predicate Valid()
      reads this, nodes
    {
      Mirrors() && DefUse(net) && InputsExist(net) && forall k :: k in hashing ==> hashing[k] < |net|
    }

    constructor ()
      ensures Valid() && net == [] && hashing == map[]
    {
      nodes, hashing, net := [], map[], [];
    }

    /** Creates a node at the next identifier; its inputs may name itself. */
    method Allocate(func: Func, inputs: seq<Signal>) returns (id: nat)
      requires Valid() && |nodes| < WORD32 - 1
      requires forall i :: 0 <= i < |inputs| ==> inputs[i].node <= |nodes|
      modifies this, nodes
      ensures Valid() && id == |old(net)| && net == Netlist.Allocate(old(net), func, inputs)
      ensures |net| == id + 1 && net[id].func == func && net[id].inputs == inputs
      ensures net[id].links == UsesInOrder(id, id, inputs)
      ensures forall t :: 0 <= t < id ==>
        net[t].inputs == old(net)[t].inputs && net[t].func == old(net)[t].func &&
        net[t].links == old(net)[t].links + UsesInOrder(t, id, inputs)
      ensures hashing == old(hashing) && old(nodes) <= nodes && |nodes| == |old(nodes)| + 1 && fresh(nodes[id])
    {
      hide DefUse, InputsExist, Netlist.AppendLinks, UsesInOrder;
      AllocateKeepsDefUse(net, func, inputs);
      AllocateWiring(net, func, inputs);
      id := |nodes|;
      var node := new Node(id, func, inputs);
      nodes := nodes + [node];
      net := net + [NodeValue(func, inputs, [])];
      AppendLinks(id);
    }

    method SetFunc(id: nat, func: Func)
      requires Valid() && id < |nodes|
      modifies this, nodes
      ensures Valid() && nodes == old(nodes) && hashing == old(hashing)
      ensures net == old(net)[id := old(net)[id].(func := func)]
    {
      nodes[id].func := func;
      net := net[id := net[id].(func := func)];
      SameWiring(old(net), net);
    }

    method SetInputs(id: nat, inputs: seq<Signal>)
      requires Valid() && id < |nodes| && forall i :: 0 <= i < |inputs| ==> inputs[i].node < |nodes|
      modifies this, nodes
      ensures Valid() && nodes == old(nodes) && hashing == old(hashing)
      ensures net == Netlist.SetInputs(old(net), id, inputs)
      ensures net[id].inputs == inputs && net[id].func == old(net)[id].func
      ensures forall t :: 0 <= t < |net| && t != id ==>
        net[t].inputs == old(net)[t].inputs && net[t].func == old(net)[t].func
      ensures forall s: nat :: s < |net| ==>
        net[s].links == Elsewhere(old(net)[s].links, id) + UsesInOrder(s, id, inputs)
    {
      hide DefUse, Netlist.AppendLinks, Netlist.RemoveLinks, Elsewhere, UsesInOrder;
      SetInputsKeepsDefUse(net, id, inputs);
      SetInputsWiring(net, id, inputs);
      RemoveLinks(id);
      nodes[id].inputs := inputs;
      net := net[id := net[id].(inputs := inputs)];
      AppendLinks(id);
    }

    method AppendLinks(id: nat)
      requires Mirrors() && id < |nodes|
      requires forall i :: 0 <= i < |net[id].inputs| ==> net[id].inputs[i].node < |nodes|
      modifies `net, nodes
      ensures Mirrors() && net == Netlist.AppendLinks(old(net), id, |old(net)[id].inputs|)
    {
      hide Netlist.AppendLinks, Netlist.AppendLink;
      NoLinksYet(net, id);
      for i := 0 to |nodes[id].inputs|
        invariant Mirrors() && net == Netlist.AppendLinks(old(net), id, i)
      {
        AppendLinksStep(old(net), id, i);
        AppendTo(nodes[id].inputs[i].node, id, i);
      }
    }

    /** Node src gets a link to input i of node id. */
    method AppendTo(src: nat, id: nat, i: nat)
      requires Mirrors() && src < |nodes|
      modifies `net, nodes[src]
      ensures Mirrors() && net == Netlist.AppendLink(old(net), src, id, i)
    {
      hide WithLinks, Without;
      nodes[src].AppendLink(id, i);
      net := Netlist.AppendLink(net, src, id, i);
    }

    method RemoveLinks(id: nat)
      requires Mirrors() && id < |nodes|
      requires forall i :: 0 <= i < |net[id].inputs| ==> net[id].inputs[i].node < |nodes|
      modifies `net, nodes
      ensures Mirrors() && net == Netlist.RemoveLinks(old(net), id, |old(net)[id].inputs|)
    {
      hide Netlist.RemoveLinks, Netlist.RemoveLink;
      NoLinksYet(net, id);
      for i := 0 to |nodes[id].inputs|
        invariant Mirrors() && net == Netlist.RemoveLinks(old(net), id, i)
      {
        AppendLinksStep(old(net), id, i);
        RemoveFrom(nodes[id].inputs[i].node, id, i);
      }
    }

    /** Node src loses its link to input i of node id. */
    method RemoveFrom(src: nat, id: nat, i: nat)
      requires Mirrors() && src < |nodes|
      modifies `net, nodes[src]
      ensures Mirrors() && net == Netlist.RemoveLink(old(net), src, id, i)
    {
      hide WithLinks, Without;
      nodes[src].RemoveLink(id, i);
      net := Netlist.RemoveLink(net, src, id, i);
    }

    /** Enters a node into the hash table, under the key of its function and inputs of now. A taken key keeps its
        entry. */
    method Add(netId: nat, id: nat)
      requires Valid() && id < |nodes|
      modifies `hashing
      ensures Valid() && KeyOf(netId, net[id].func, Ids(net[id].inputs)) in hashing
      ensures forall key :: key in old(hashing) ==> key in hashing && hashing[key] == old(hashing)[key]
      ensures forall key :: key in hashing && key !in old(hashing) ==>
        key == KeyOf(netId, net[id].func, Ids(net[id].inputs)) && key.netId == netId && hashing[key] == id
    {
      hide Ids;
      var key := MakeKey(netId, nodes[id].func, nodes[id].inputs);
      if key !in hashing {
        hashing := hashing[key := id];
      }
    }

    /** The node to share for the given function and inputs, if there is one. Requests without inputs are for constants
        only, identities are their input, and all others get the node under their key if it has the function, as many
        inputs, and no more different ones together with the request than that. */
    method Get(netId: nat, func: Func, inputs: seq<Signal>) returns (node: Option<nat>)
      requires Valid() && (IsIdentity(func) && inputs != [] ==> |inputs| == 1)
      ensures func != ZERO && func != ONE && inputs == [] ==> node == None
      ensures func == NOP && inputs != [] ==> node == Some(inputs[0].node)
      ensures func != NOP && (func == ZERO || func == ONE || inputs != []) ==>
        forall t :: node == Some(t) <==>
          var key := KeyOf(netId, func, Ids(inputs));
          key in hashing && hashing[key] == t && net[t].func == func && |net[t].inputs| == |inputs| &&
          |Elements(Ids(inputs)) + Elements(Ids(net[t].inputs))| == |inputs|
      ensures node == Lookup(net, hashing, netId, func, inputs)
    {
      hide Ids, KeyOf;
      if !IsConstant(func) && inputs == [] {
        return None;
      }
      if IsIdentity(func) {
        return Some(inputs[0].node);
      }
      var key := MakeKey(netId, func, inputs);
      if key in hashing {
        var found := nodes[hashing[key]];
        var same := CheckSignature(NodeValue(found.func, found.inputs, found.links), func, inputs);
        if same {
          return Some(hashing[key]);
        }
      }
      return None;
    }
  }

  lemma NoLinksYet(net: Net, id: nat)
    requires id < |net|
    ensures Netlist.AppendLinks(net, id, 0) == Netlist.RemoveLinks(net, id, 0) == net
  {
  }

  lemma SameWiring(net: Net, other: Net)
    requires DefUse(net) && InputsExist(net) && |other| == |net|
    requires forall t :: 0 <= t < |net| ==> other[t].inputs == net[t].inputs && other[t].links == net[t].links
    ensures DefUse(other) && InputsExist(other)
  {
    assert forall s, l :: IsUse(other, s, l) <==> IsUse(net, s, l);
  }
}
