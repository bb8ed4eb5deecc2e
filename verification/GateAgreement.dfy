/** When two gates with the same symbol compute the same for all values of the nodes they look at. */
module GateAgreement {
  import opened Sequences
  import opened Netlist
  import opened GateFunctions

  /** The gate computes the same from the inputs a as from the inputs b. */
  ghost predicate Agree(f: Func, a: seq<nat>, b: seq<nat>)
    requires Combinational(f)
  {
    forall val: nat -> bool :: Eval(f, Values(val, a)) == Eval(f, Values(val, b))
  }

  predicate AndOr(f: Func) { f == AND || f == OR || f == NAND || f == NOR }

  predicate Xor(f: Func) { f == XOR || f == XNOR }

  // ----- AND, OR, NAND, NOR

  lemma ValuesWith(val: nat -> bool, ids: seq<nat>, b: bool)
    ensures b in Values(val, ids) <==> exists x :: x in ids && val(x) == b
  {
    if b in Values(val, ids) {
      var i :| 0 <= i < |ids| && Values(val, ids)[i] == b;
      assert ids[i] in ids;
    }
    if x :| x in ids && val(x) == b {
      var i :| 0 <= i < |ids| && ids[i] == x;
      assert Values(val, ids)[i] == b;
    }
  }

  /** An input that only a has decides when all others are neutral. */
  lemma Separated(f: Func, a: seq<nat>, b: seq<nat>, y: nat)
    requires AndOr(f) && y in a && y !in b
    ensures !Agree(f, a, b) && !Agree(f, b, a)
  {
    var val: nat -> bool := if f == AND || f == NAND then x => x != y else x => x == y;
    var odd := f == OR || f == NOR;
    ValuesWith(val, a, odd);
    ValuesWith(val, b, odd);
    assert val(y) == odd;
    hide Values;
    assert Eval(f, Values(val, a)) != Eval(f, Values(val, b));
  }

  /** These gates look at nothing but which inputs they have. */
  lemma AgreeOnElements(f: Func, a: seq<nat>, b: seq<nat>)
    requires AndOr(f)
    ensures Agree(f, a, b) <==> Elements(a) == Elements(b)
  {
    if Elements(a) == Elements(b) {
      forall val: nat -> bool ensures Eval(f, Values(val, a)) == Eval(f, Values(val, b)) {
        assert forall x :: x in a <==> x in Elements(b);
        ValuesWith(val, a, true);
        ValuesWith(val, b, true);
        ValuesWith(val, a, false);
        ValuesWith(val, b, false);
      }
    } else if x :| x in Elements(a) && x !in Elements(b) {
      Separated(f, a, b, x);
    } else {
      var x :| x in Elements(b) && x !in Elements(a);
      Separated(f, b, a, x);
    }
  }

  // ----- XOR, XNOR

  /** How many inputs below n are true, counted with their repetitions. */
  ghost function Tally(val: nat -> bool, ids: seq<nat>, n: nat): nat {
    if n == 0 then 0 else Tally(val, ids, n - 1) + (if val(n - 1) then Times(ids, n - 1) else 0)
  }

  lemma {:induction false} TallyStep(val: nat -> bool, ids: seq<nat>, n: nat)
    requires ids != []
    ensures var last := ids[|ids| - 1];
            Tally(val, ids, n) == Tally(val, ids[..|ids| - 1], n) + (if last < n && val(last) then 1 else 0)
    decreases n
  {
    if n > 0 { TallyStep(val, ids, n - 1); }
  }

  lemma {:induction false} TallyNothing(val: nat -> bool, n: nat)
    ensures Tally(val, [], n) == 0
    decreases n
  {
    if n > 0 { TallyNothing(val, n - 1); }
  }

  lemma {:induction false} TruesTally(val: nat -> bool, ids: seq<nat>, n: nat)
    requires forall i :: 0 <= i < |ids| ==> ids[i] < n
    ensures Trues(Values(val, ids)) == Tally(val, ids, n)
    decreases |ids|
  {
    if ids == [] {
      TallyNothing(val, n);
    } else {
      TruesTally(val, ids[..|ids| - 1], n);
      TallyStep(val, ids, n);
      assert Values(val, ids)[..|ids| - 1] == Values(val, ids[..|ids| - 1]);
    }
  }

  ghost predicate SameParity(a: seq<nat>, b: seq<nat>) {
    forall x :: Times(a, x) % 2 == Times(b, x) % 2
  }

  lemma {:induction false} TallyParity(val: nat -> bool, a: seq<nat>, b: seq<nat>, n: nat)
    requires SameParity(a, b)
    ensures Tally(val, a, n) % 2 == Tally(val, b, n) % 2
    decreases n
  {
    if n > 0 {
      TallyParity(val, a, b, n - 1);
      assert Times(a, n - 1) % 2 == Times(b, n - 1) % 2;
      hide Times;
      AddParity(Tally(val, a, n - 1), Tally(val, b, n - 1), Times(a, n - 1), Times(b, n - 1));
    }
  }

  lemma AddParity(x: nat, y: nat, u: nat, v: nat)
    requires x % 2 == y % 2 && u % 2 == v % 2
    ensures (x + u) % 2 == (y + v) % 2
  {
  }

  function Bound(ids: seq<nat>): (n: nat)
    ensures forall i :: 0 <= i < |ids| ==> ids[i] < n
  {
    if ids == [] then 0 else Bound(ids[..|ids| - 1]) + ids[|ids| - 1] + 1
  }

  lemma {:induction false} TruesOfOne(y: nat, ids: seq<nat>)
    ensures Trues(Values(x => x == y, ids)) == Times(ids, y)
    decreases |ids|
  {
    if ids != [] {
      TruesOfOne(y, ids[..|ids| - 1]);
      assert Values(x => x == y, ids)[..|ids| - 1] == Values(x => x == y, ids[..|ids| - 1]);
    }
  }

  lemma XorByTrues(f: Func, a: seq<bool>, b: seq<bool>)
    requires Xor(f)
    ensures Eval(f, a) == Eval(f, b) <==> Trues(a) % 2 == Trues(b) % 2
  {
    TruesDecide(a);
    TruesDecide(b);
  }

  /** These gates look at nothing but which inputs they have an odd number of times. */
  lemma AgreeOnParity(f: Func, a: seq<nat>, b: seq<nat>)
    requires Xor(f)
    ensures Agree(f, a, b) <==> SameParity(a, b)
  {
    hide Eval, Trues, Values, Times, Tally;
    if SameParity(a, b) {
      forall val: nat -> bool ensures Eval(f, Values(val, a)) == Eval(f, Values(val, b)) {
        var n := Bound(a) + Bound(b);
        TruesTally(val, a, n);
        TruesTally(val, b, n);
        TallyParity(val, a, b, n);
        XorByTrues(f, Values(val, a), Values(val, b));
      }
    }
    if Agree(f, a, b) {
      forall y ensures Times(a, y) % 2 == Times(b, y) % 2 {
        XorAtOne(f, a, b, y);
      }
    }
  }

  lemma XorAtOne(f: Func, a: seq<nat>, b: seq<nat>, y: nat)
    requires Xor(f) && Agree(f, a, b)
    ensures Times(a, y) % 2 == Times(b, y) % 2
  {
    hide Eval, Trues, Values, Times;
    var val: nat -> bool := x => x == y;
    TruesOfOne(y, a);
    TruesOfOne(y, b);
    assert Eval(f, Values(val, a)) == Eval(f, Values(val, b));
    XorByTrues(f, Values(val, a), Values(val, b));
  }
}
