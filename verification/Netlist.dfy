/** Nodes, signals and links of src/base/model (node.h, signal.h, link.h) as values, and the def-use relation between
    the inputs and the links of all nodes in the storage. */
module Netlist {
  import opened Sequences

  datatype Event = POSEDGE | NEGEDGE | LEVEL0 | LEVEL1 | ALWAYS | DELAY

  /** A signal from a node; a delay signal carries node 0. */
  datatype Signal = Signal(event: Event, node: nat, delay: nat)

  /** Input number `input` of node `target` is driven by node `source`. */
  datatype Link = Link(source: nat, target: nat, input: nat)

  /** The gate symbols of src/gate/model/gsymbol.h:22-75, and those made by GateSymbol::create. */
  datatype Func =
    IN | OUT | ZERO | ONE | NOP | NOT | AND | OR | XOR | NAND | NOR | XNOR | MAJ | LATCH | DFF | DFFrs | Custom(k: nat)

  datatype NodeValue = NodeValue(func: Func, inputs: seq<Signal>, links: seq<Link>)

  /** The storage: node i is the one with identifier i. */
  type Net = seq<NodeValue>

  ghost predicate InputsExist(net: Net) {
    forall t, i :: 0 <= t < |net| && 0 <= i < |net[t].inputs| ==> net[t].inputs[i].node < |net|
  }

  /** Link l says that node s drives some input. */
  predicate IsUse(net: Net, s: nat, l: Link) {
    l.source == s && l.target < |net| && l.input < |net[l.target].inputs| && net[l.target].inputs[l.input].node == s
  }

  /** The links of every node are its uses, each once, but for node id only the uses at its inputs lo..hi. */
  ghost predicate LinkedBut(net: Net, id: nat, lo: nat, hi: nat) {
    forall s: nat :: s < |net| ==> Distinct(net[s].links) && forall l :: l in net[s].links <==>
      IsUse(net, s, l) && (l.target == id ==> lo <= l.input < hi)
  }

  /** The links of every node are exactly its uses, each once: links are the inverse of inputs. */
  ghost predicate DefUse(net: Net) {
    forall s: nat :: s < |net| ==> Distinct(net[s].links) && forall l :: l in net[s].links <==> IsUse(net, s, l)
  }

  // ----- the operations of node.h:105-160 on values

  function Without(links: seq<Link>, l: Link): seq<Link> {
    if links == [] then []
    else if links[|links| - 1] == l then Without(links[..|links| - 1], l)
    else Without(links[..|links| - 1], l) + [links[|links| - 1]]
  }

  function WithLinks(net: Net, s: nat, links: seq<Link>): (r: Net)
    ensures |r| == |net| && forall t :: 0 <= t < |net| ==> r[t].inputs == net[t].inputs && r[t].func == net[t].func
    ensures forall t :: 0 <= t < |net| && t != s ==> r[t] == net[t]
    ensures s < |net| ==> r[s].links == links
  {
    if s < |net| then net[s := net[s].(links := links)] else net
  }

  function AppendLink(net: Net, s: nat, id: nat, i: nat): (r: Net) {
    if s < |net| then WithLinks(net, s, net[s].links + [Link(s, id, i)]) else net
  }

  function RemoveLink(net: Net, s: nat, id: nat, i: nat): (r: Net) {
    if s < |net| then WithLinks(net, s, Without(net[s].links, Link(s, id, i))) else net
  }

  /** appendLinks of node id, up to input k. */
  function AppendLinks(net: Net, id: nat, k: nat): (r: Net)
    requires id < |net| && k <= |net[id].inputs|
    ensures |r| == |net|
    ensures forall t :: 0 <= t < |net| ==> r[t].inputs == net[t].inputs && r[t].func == net[t].func
  {
    if k == 0 then net else AppendLink(AppendLinks(net, id, k - 1), net[id].inputs[k - 1].node, id, k - 1)
  }

  /** removeLinks of node id, up to input k. */
  function RemoveLinks(net: Net, id: nat, k: nat): (r: Net)
    requires id < |net| && k <= |net[id].inputs|
    ensures |r| == |net|
    ensures forall t :: 0 <= t < |net| ==> r[t].inputs == net[t].inputs && r[t].func == net[t].func
  {
    if k == 0 then net else RemoveLink(RemoveLinks(net, id, k - 1), net[id].inputs[k - 1].node, id, k - 1)
  }

  function SetInputs(net: Net, id: nat, inputs: seq<Signal>): Net
    requires id < |net|
  {
    var removed := RemoveLinks(net, id, |net[id].inputs|);
    AppendLinks(removed[id := removed[id].(inputs := inputs)], id, |inputs|)
  }

  function Allocate(net: Net, func: Func, inputs: seq<Signal>): Net {
    AppendLinks(net + [NodeValue(func, inputs, [])], |net|, |inputs|)
  }

  lemma AppendLinksStep(net: Net, id: nat, i: nat)
    requires id < |net| && i < |net[id].inputs|
    ensures AppendLinks(net, id, 0) == RemoveLinks(net, id, 0) == net
    ensures AppendLinks(net, id, i + 1) == AppendLink(AppendLinks(net, id, i), net[id].inputs[i].node, id, i)
    ensures RemoveLinks(net, id, i + 1) == RemoveLink(RemoveLinks(net, id, i), net[id].inputs[i].node, id, i)
  {
  }

  // ----- the def-use invariant

  lemma {:induction false} WithoutPart(links: seq<Link>, l: Link)
    requires Distinct(links)
    ensures Distinct(Without(links, l)) && forall x :: x in Without(links, l) <==> x in links && x != l
    decreases |links|
  {
    if links != [] {
      var front, last := links[..|links| - 1], links[|links| - 1];
      WithoutPart(front, l);
      assert links == front + [last] && last !in front;
    }
  }

  /** a is b with all copies of l left out, and nothing else changed: neither how often a link occurs nor the order. */
  ghost predicate Removed(a: seq<Link>, b: seq<Link>, l: Link) {
    && l !in a
    && (forall x :: x != l ==> multiset(a)[x] == multiset(b)[x])
    && Subsequence(a, b)
  }

  lemma {:induction false} SubsequenceCounts(a: seq<Link>, b: seq<Link>, x: Link)
    requires Subsequence(a, b)
    ensures multiset(a)[x] <= multiset(b)[x]
    decreases |b|
  {
    if a != [] {
      var front, last := b[..|b| - 1], b[|b| - 1];
      assert b == front + [last];
      if Subsequence(a, front) {
        SubsequenceCounts(a, front, x);
      } else {
        assert a == a[..|a| - 1] + [last];
        SubsequenceCounts(a[..|a| - 1], front, x);
      }
    }
  }

  lemma {:induction false} WithoutRemoves(b: seq<Link>, l: Link)
    ensures Removed(Without(b, l), b, l)
    decreases |b|
  {
    if b != [] {
      var front, last := b[..|b| - 1], b[|b| - 1];
      WithoutRemoves(front, l);
      assert b == front + [last];
      assert last != l ==> Without(b, l)[..|Without(b, l)| - 1] == Without(front, l);
    }
  }

  /** There is exactly one way to remove a link. */
  lemma {:induction false} RemovedIsWithout(a: seq<Link>, b: seq<Link>, l: Link)
    requires Removed(a, b, l)
    ensures a == Without(b, l)
    decreases |b|
  {
    if b != [] {
      var front, last := b[..|b| - 1], b[|b| - 1];
      assert b == front + [last];
      if Subsequence(a, front) {
        SubsequenceCounts(a, front, last);
        assert last == l by { assert multiset(b)[last] == multiset(front)[last] + 1; }
        RemovedIsWithout(a, front, l);
      } else {
        var shorter := a[..|a| - 1];
        assert a == shorter + [last];
        forall x | x != l ensures multiset(shorter)[x] == multiset(front)[x] {
          assert multiset(a)[x] == multiset(b)[x];
        }
        RemovedIsWithout(shorter, front, l);
      }
    }
  }

  lemma AppendKeeps(net: Net, id: nat, i: nat)
    requires id < |net| && i < |net[id].inputs| && net[id].inputs[i].node < |net|
    requires LinkedBut(net, id, 0, i)
    ensures LinkedBut(AppendLink(net, net[id].inputs[i].node, id, i), id, 0, i + 1)
  {
    hide Distinct;
    var src := net[id].inputs[i].node;
    var l := Link(src, id, i);
    var links := net[src].links;
    assert l !in links;
    assert Distinct(links + [l]) by { DistinctAppend(links, l); }
    var r := AppendLink(net, src, id, i);
    forall s: nat | s < |r|
      ensures Distinct(r[s].links)
      ensures forall x :: x in r[s].links <==> IsUse(r, s, x) && (x.target == id ==> 0 <= x.input < i + 1)
    {
      assert forall x :: IsUse(r, s, x) <==> IsUse(net, s, x);
      if s == src { assert forall x :: x in r[s].links <==> x in links || x == l; }
    }
  }

  lemma RemoveKeeps(net: Net, id: nat, i: nat, arity: nat)
    requires id < |net| && i < arity == |net[id].inputs| && net[id].inputs[i].node < |net|
    requires LinkedBut(net, id, i, arity)
    ensures LinkedBut(RemoveLink(net, net[id].inputs[i].node, id, i), id, i + 1, arity)
  {
    hide Distinct, Without;
    var src := net[id].inputs[i].node;
    var l := Link(src, id, i);
    WithoutPart(net[src].links, l);
    var r := RemoveLink(net, src, id, i);
    forall s: nat | s < |r|
      ensures Distinct(r[s].links)
      ensures forall x :: x in r[s].links <==> IsUse(r, s, x) && (x.target == id ==> i + 1 <= x.input < arity)
    {
      assert forall x :: IsUse(r, s, x) <==> IsUse(net, s, x);
    }
  }

  lemma {:induction false} AppendLinksKeep(net: Net, id: nat, k: nat)
    requires id < |net| && k <= |net[id].inputs| && InputsExist(net) && LinkedBut(net, id, 0, 0)
    ensures LinkedBut(AppendLinks(net, id, k), id, 0, k)
    decreases k
  {
    hide LinkedBut, AppendLink;
    if k > 0 {
      AppendLinksKeep(net, id, k - 1);
      AppendKeeps(AppendLinks(net, id, k - 1), id, k - 1);
    }
  }

  lemma {:induction false} RemoveLinksKeep(net: Net, id: nat, k: nat)
    requires id < |net| && k <= |net[id].inputs| && InputsExist(net) && LinkedBut(net, id, 0, |net[id].inputs|)
    ensures LinkedBut(RemoveLinks(net, id, k), id, k, |net[id].inputs|)
    decreases k
  {
    hide LinkedBut, RemoveLink;
    if k > 0 {
      RemoveLinksKeep(net, id, k - 1);
      RemoveKeeps(RemoveLinks(net, id, k - 1), id, k - 1, |net[id].inputs|);
    }
  }

  /** Rewiring a node, repeated inputs and self-inputs included, keeps links the inverse of inputs. */
  lemma SetInputsKeepsDefUse(net: Net, id: nat, inputs: seq<Signal>)
    requires DefUse(net) && InputsExist(net) && id < |net|
    requires forall i :: 0 <= i < |inputs| ==> inputs[i].node < |net|
    ensures DefUse(SetInputs(net, id, inputs)) && InputsExist(SetInputs(net, id, inputs))
  {
    hide AppendLinks, RemoveLinks, Distinct;
    var arity := |net[id].inputs|;
    assert LinkedBut(net, id, 0, arity);
    RemoveLinksKeep(net, id, arity);
    var removed := RemoveLinks(net, id, arity);
    var rewired := removed[id := removed[id].(inputs := inputs)];
    Rewire(removed, id, inputs);
    AppendLinksKeep(rewired, id, |inputs|);
    AllLinked(AppendLinks(rewired, id, |inputs|), id, |inputs|);
  }

  lemma Rewire(net: Net, id: nat, inputs: seq<Signal>)
    requires id < |net| && LinkedBut(net, id, |net[id].inputs|, |net[id].inputs|)
    ensures LinkedBut(net[id := net[id].(inputs := inputs)], id, 0, 0)
  {
    hide Distinct;
    var r := net[id := net[id].(inputs := inputs)];
    forall s: nat | s < |r|
      ensures Distinct(r[s].links)
      ensures forall x :: x in r[s].links <==> IsUse(r, s, x) && (x.target == id ==> 0 <= x.input < 0)
    {
      assert r[s].links == net[s].links;
      assert forall x: Link :: x.target != id ==> (IsUse(r, s, x) <==> IsUse(net, s, x));
    }
  }

  lemma AllLinked(net: Net, id: nat, arity: nat)
    requires id < |net| && arity == |net[id].inputs| && LinkedBut(net, id, 0, arity)
    ensures DefUse(net)
  {
    hide Distinct;
  }

  /** Allocating a node keeps links the inverse of inputs. */
  lemma AllocateKeepsDefUse(net: Net, func: Func, inputs: seq<Signal>)
    requires DefUse(net) && InputsExist(net)
    requires forall i :: 0 <= i < |inputs| ==> inputs[i].node <= |net|
    ensures DefUse(Allocate(net, func, inputs)) && InputsExist(Allocate(net, func, inputs))
  {
    hide AppendLinks, Distinct;
    var id := |net|;
    var longer := net + [NodeValue(func, inputs, [])];
    NoLinksDistinct();
    forall s: nat | s < |longer|
      ensures Distinct(longer[s].links)
      ensures forall x :: x in longer[s].links <==> IsUse(longer, s, x) && (x.target == id ==> 0 <= x.input < 0)
    {
      assert s < id ==> longer[s] == net[s];
      assert forall x: Link :: x.target != id ==> (IsUse(longer, s, x) <==> IsUse(net, s, x));
    }
    AppendLinksKeep(longer, id, |inputs|);
    AllLinked(AppendLinks(longer, id, |inputs|), id, |inputs|);
  }

  // ----- links after rewiring, in their order

  /** The links that do not lead to the first k inputs of node id. */
  function Dropped(links: seq<Link>, id: nat, k: nat): seq<Link> {
    if links == [] then []
    else
      var last := links[|links| - 1];
      Dropped(links[..|links| - 1], id, k) + (if last.target == id && last.input < k then [] else [last])
  }

  /** The links that do not lead to node id. */
  function Elsewhere(links: seq<Link>, id: nat): seq<Link> {
    if links == [] then []
    else
      var last := links[|links| - 1];
      Elsewhere(links[..|links| - 1], id) + (if last.target == id then [] else [last])
  }

  /** The links from s to the inputs of node id, by ascending input. */
  function UsesInOrder(s: nat, id: nat, inputs: seq<Signal>): seq<Link> {
    if inputs == [] then []
    else
      var i := |inputs| - 1;
      UsesInOrder(s, id, inputs[..i]) + (if inputs[i].node == s then [Link(s, id, i)] else [])
  }

  lemma {:induction false} ElsewherePart(links: seq<Link>, id: nat, l: Link)
    ensures l in Elsewhere(links, id) <==> l in links && l.target != id
    decreases |links|
  {
    if links != [] {
      var front, last := links[..|links| - 1], links[|links| - 1];
      ElsewherePart(front, id, l);
      assert links == front + [last];
    }
  }

  lemma {:induction false} ElsewhereInOrder(links: seq<Link>, id: nat)
    ensures Subsequence(Elsewhere(links, id), links)
    decreases |links|
  {
    if links != [] {
      var front, last, kept := links[..|links| - 1], links[|links| - 1], Elsewhere(links, id);
      ElsewhereInOrder(front, id);
      if last.target == id {
        assert kept == Elsewhere(front, id);
      } else {
        assert kept[..|kept| - 1] == Elsewhere(front, id);
      }
    }
  }

  lemma {:induction false} UsesInOrderPart(s: nat, id: nat, inputs: seq<Signal>, l: Link)
    ensures l in UsesInOrder(s, id, inputs) <==>
            l.source == s && l.target == id && l.input < |inputs| && inputs[l.input].node == s
    ensures forall i, j :: 0 <= i < j < |UsesInOrder(s, id, inputs)| ==>
              UsesInOrder(s, id, inputs)[i].input < UsesInOrder(s, id, inputs)[j].input < |inputs|
    decreases |inputs|
  {
    if inputs != [] {
      var i := |inputs| - 1;
      UsesInOrderPart(s, id, inputs[..i], l);
      forall j | 0 <= j < |UsesInOrder(s, id, inputs[..i])| ensures UsesInOrder(s, id, inputs[..i])[j].input < i {
        UsesInOrderPart(s, id, inputs[..i], UsesInOrder(s, id, inputs[..i])[j]);
      }
    }
  }

  lemma {:induction false} AppendLinksInOrder(net: Net, id: nat, k: nat, s: nat)
    requires id < |net| && k <= |net[id].inputs| && s < |net|
    requires forall i :: 0 <= i < |net[id].inputs| ==> net[id].inputs[i].node < |net|
    ensures AppendLinks(net, id, k)[s].links == net[s].links + UsesInOrder(s, id, net[id].inputs[..k])
    decreases k
  {
    if k > 0 {
      AppendLinksInOrder(net, id, k - 1, s);
      assert net[id].inputs[..k][..k - 1] == net[id].inputs[..k - 1];
    }
  }

  lemma {:induction false} DroppedNext(links: seq<Link>, l: Link)
    requires forall x :: x in links && x.target == l.target && x.input == l.input ==> x == l
    ensures Without(Dropped(links, l.target, l.input), l) == Dropped(links, l.target, l.input + 1)
    decreases |links|
  {
    if links != [] {
      var front, last := links[..|links| - 1], links[|links| - 1];
      assert links == front + [last];
      DroppedNext(front, l);
      var id, k, some := l.target, l.input, Dropped(links, l.target, l.input);
      if last.target == id && last.input < k {
        assert some == Dropped(front, id, k) && Dropped(links, id, k + 1) == Dropped(front, id, k + 1);
      } else {
        assert some[..|some| - 1] == Dropped(front, id, k) && some[|some| - 1] == last;
        assert last == l ==> Dropped(links, id, k + 1) == Dropped(front, id, k + 1);
      }
    }
  }

  lemma {:induction false} DroppedSame(links: seq<Link>, id: nat, k: nat)
    requires forall x :: x in links && x.target == id ==> x.input != k
    ensures Dropped(links, id, k + 1) == Dropped(links, id, k)
    decreases |links|
  {
    if links != [] {
      assert links[|links| - 1] in links;
      DroppedSame(links[..|links| - 1], id, k);
    }
  }

  lemma {:induction false} DroppedNone(links: seq<Link>, id: nat)
    ensures Dropped(links, id, 0) == links
    decreases |links|
  {
    if links != [] { DroppedNone(links[..|links| - 1], id); }
  }

  lemma {:induction false} DroppedAll(links: seq<Link>, id: nat, k: nat)
    requires forall x :: x in links && x.target == id ==> x.input < k
    ensures Dropped(links, id, k) == Elsewhere(links, id)
    decreases |links|
  {
    if links != [] {
      assert links[|links| - 1] in links;
      DroppedAll(links[..|links| - 1], id, k);
    }
  }

  lemma OnlyLinkToInput(net: Net, id: nat, i: nat, s: nat)
    requires DefUse(net) && id < |net| && i < |net[id].inputs| && s < |net|
    ensures var src := net[id].inputs[i].node;
            forall x :: x in net[s].links && x.target == id && x.input == i ==> x == Link(src, id, i) && s == src
  {
    hide Distinct;
    forall x | x in net[s].links && x.target == id ensures IsUse(net, s, x) {
    }
  }

  lemma {:induction false} RemoveLinksInOrder(net: Net, id: nat, k: nat, s: nat)
    requires DefUse(net) && InputsExist(net) && id < |net| && k <= |net[id].inputs| && s < |net|
    ensures RemoveLinks(net, id, k)[s].links == Dropped(net[s].links, id, k)
    decreases k
  {
    hide Distinct, Dropped, Without, DefUse;
    if k == 0 {
      DroppedNone(net[s].links, id);
    } else {
      RemoveLinksInOrder(net, id, k - 1, s);
      var src := net[id].inputs[k - 1].node;
      OnlyLinkToInput(net, id, k - 1, s);
      if s == src {
        DroppedNext(net[s].links, Link(src, id, k - 1));
      } else {
        DroppedSame(net[s].links, id, k - 1);
      }
    }
  }

  /** Rewiring changes the inputs of the node and nothing else of functions and inputs. Every node loses its links to
      the node and gets those to its new inputs at the end. */
  lemma SetInputsWiring(net: Net, id: nat, inputs: seq<Signal>)
    requires DefUse(net) && InputsExist(net) && id < |net|
    requires forall i :: 0 <= i < |inputs| ==> inputs[i].node < |net|
    ensures var r := SetInputs(net, id, inputs);
            && |r| == |net| && r[id].inputs == inputs && r[id].func == net[id].func
            && (forall t :: 0 <= t < |net| && t != id ==> r[t].inputs == net[t].inputs && r[t].func == net[t].func)
            && (forall s: nat :: s < |net| ==>
                  r[s].links == Elsewhere(net[s].links, id) + UsesInOrder(s, id, inputs))
  {
    hide AppendLinks, RemoveLinks, Distinct, Elsewhere, UsesInOrder;
    var arity := |net[id].inputs|;
    var removed := RemoveLinks(net, id, arity);
    var rewired := removed[id := removed[id].(inputs := inputs)];
    forall s: nat | s < |net|
      ensures AppendLinks(rewired, id, |inputs|)[s].links == Elsewhere(net[s].links, id) + UsesInOrder(s, id, inputs)
    {
      RemoveLinksInOrder(net, id, arity, s);
      forall x | x in net[s].links && x.target == id ensures x.input < arity {
        assert IsUse(net, s, x);
      }
      DroppedAll(net[s].links, id, arity);
      AppendLinksInOrder(rewired, id, |inputs|, s);
      assert inputs[..|inputs|] == inputs;
    }
  }

  /** A new node has the function and inputs given; every node gets its links to it at the end. */
  lemma AllocateWiring(net: Net, func: Func, inputs: seq<Signal>)
    requires forall i :: 0 <= i < |inputs| ==> inputs[i].node <= |net|
    ensures var r := Allocate(net, func, inputs);
            && |r| == |net| + 1 && r[|net|].inputs == inputs && r[|net|].func == func
            && r[|net|].links == UsesInOrder(|net|, |net|, inputs)
            && (forall t :: 0 <= t < |net| ==> r[t].inputs == net[t].inputs && r[t].func == net[t].func &&
                                               r[t].links == net[t].links + UsesInOrder(t, |net|, inputs))
  {
    hide AppendLinks, UsesInOrder;
    var longer := net + [NodeValue(func, inputs, [])];
    forall s: nat | s < |longer|
      ensures AppendLinks(longer, |net|, |inputs|)[s].links == longer[s].links + UsesInOrder(s, |net|, inputs)
    {
      AppendLinksInOrder(longer, |net|, |inputs|, s);
      assert inputs[..|inputs|] == inputs;
    }
  }

  lemma NoLinksDistinct()
    ensures Distinct<Link>([])
  {
  }

  // ----- total fanout and total arity

  function TotalFanout(net: Net, k: nat): nat
    requires k <= |net|
  {
    if k == 0 then 0 else TotalFanout(net, k - 1) + |net[k - 1].links|
  }

  function TotalArity(net: Net, k: nat): nat
    requires k <= |net|
  {
    if k == 0 then 0 else TotalArity(net, k - 1) + |net[k - 1].inputs|
  }

  /** The links of the first k nodes. */
  ghost function LinkSet(net: Net, k: nat): set<Link>
    requires k <= |net|
  {
    if k == 0 then {} else LinkSet(net, k - 1) + Elements(net[k - 1].links)
  }

  /** The uses at the first i inputs of node t. */
  ghost function UsesOf(net: Net, t: nat, i: nat): set<Link>
    requires t < |net| && i <= |net[t].inputs|
  {
    if i == 0 then {} else UsesOf(net, t, i - 1) + {Link(net[t].inputs[i - 1].node, t, i - 1)}
  }

  ghost function UseSet(net: Net, k: nat): set<Link>
    requires k <= |net|
  {
    if k == 0 then {} else UseSet(net, k - 1) + UsesOf(net, k - 1, |net[k - 1].inputs|)
  }

  /** The links of a node name it as their source. */
  ghost predicate Sourced(net: Net) {
    forall s, l :: 0 <= s < |net| && l in net[s].links ==> l.source == s
  }

  lemma {:induction false} LinkSetElements(net: Net, k: nat, l: Link)
    requires k <= |net| && Sourced(net)
    ensures l in LinkSet(net, k) <==> l.source < k && l in net[l.source].links
    decreases k
  {
    if k > 0 { LinkSetElements(net, k - 1, l); }
  }

  lemma {:induction false} LinkSetSize(net: Net, k: nat)
    requires k <= |net| && Sourced(net) && forall s :: 0 <= s < |net| ==> Distinct(net[s].links)
    ensures |LinkSet(net, k)| == TotalFanout(net, k)
    decreases k
  {
    hide Distinct;
    if k > 0 {
      LinkSetSize(net, k - 1);
      ElementsSize(net[k - 1].links);
      var before, links := LinkSet(net, k - 1), Elements(net[k - 1].links);
      forall l | l in before ensures l !in links {
        LinkSetElements(net, k - 1, l);
      }
      hide Elements, Sourced;
      DisjointSize(before, links);
    }
  }

  lemma DisjointSize<T>(a: set<T>, b: set<T>)
    requires forall x :: x in a ==> x !in b
    ensures |a + b| == |a| + |b|
  {
    assert a !! b;
  }

  lemma {:induction false} UsesOfElements(net: Net, t: nat, i: nat, l: Link)
    requires t < |net| && i <= |net[t].inputs|
    ensures l in UsesOf(net, t, i) <==> l.target == t && l.input < i && IsUse(net, l.source, l)
    decreases i
  {
    if i > 0 { UsesOfElements(net, t, i - 1, l); }
  }

  lemma {:induction false} UsesOfSize(net: Net, t: nat, i: nat)
    requires t < |net| && i <= |net[t].inputs|
    ensures |UsesOf(net, t, i)| == i
    decreases i
  {
    if i > 0 {
      UsesOfSize(net, t, i - 1);
      UsesOfElements(net, t, i - 1, Link(net[t].inputs[i - 1].node, t, i - 1));
    }
  }

  lemma {:induction false} UseSetElements(net: Net, k: nat, l: Link)
    requires k <= |net|
    ensures l in UseSet(net, k) <==> l.target < k && IsUse(net, l.source, l)
    decreases k
  {
    if k > 0 {
      UseSetElements(net, k - 1, l);
      UsesOfElements(net, k - 1, |net[k - 1].inputs|, l);
    }
  }

  lemma {:induction false} UseSetSize(net: Net, k: nat)
    requires k <= |net|
    ensures |UseSet(net, k)| == TotalArity(net, k)
    decreases k
  {
    hide IsUse, UsesOf;
    if k > 0 {
      UseSetSize(net, k - 1);
      UsesOfSize(net, k - 1, |net[k - 1].inputs|);
      var before, uses := UseSet(net, k - 1), UsesOf(net, k - 1, |net[k - 1].inputs|);
      forall l | l in before ensures l !in uses {
        UseSetElements(net, k - 1, l);
        UsesOfElements(net, k - 1, |net[k - 1].inputs|, l);
      }
      DisjointSize(before, uses);
    }
  }

  /** Over the whole storage, total fanout equals total arity. */
  lemma FanoutIsArity(net: Net)
    requires DefUse(net) && InputsExist(net)
    ensures TotalFanout(net, |net|) == TotalArity(net, |net|)
  {
    hide Distinct, TotalFanout, TotalArity, LinkSet, UseSet;
    LinkSetSize(net, |net|);
    UseSetSize(net, |net|);
    forall l ensures l in LinkSet(net, |net|) <==> l in UseSet(net, |net|) {
      LinkSetElements(net, |net|, l);
      UseSetElements(net, |net|, l);
    }
    assert LinkSet(net, |net|) == UseSet(net, |net|);
  }
}
