/** When a majority gate that hasSignature accepts computes what was requested. */
module MajorityAgreement {
  import opened Sequences
  import opened Netlist
  import opened GateFunctions
  import opened GateAgreement
  import opened Hashing

  /** How many of the listed inputs are in the set. */
  ghost function Weight(ids: seq<nat>, s: set<nat>): nat {
    if ids == [] then 0 else Weight(ids[..|ids| - 1], s) + (if ids[|ids| - 1] in s then 1 else 0)
  }

  /** The gate is true when exactly the inputs of the set are. */
  ghost predicate Wins(ids: seq<nat>, s: set<nat>) { 2 * Weight(ids, s) > |ids| }

  /** x alone has a majority among the inputs. */
  predicate Dominates(ids: seq<nat>, x: nat) { 2 * Times(ids, x) > |ids| }

  // ----- weights

  lemma {:induction false} WeightOfUnion(ids: seq<nat>, s: set<nat>, t: set<nat>)
    requires s !! t
    ensures Weight(ids, s + t) == Weight(ids, s) + Weight(ids, t)
    decreases |ids|
  {
    if ids != [] { WeightOfUnion(ids[..|ids| - 1], s, t); }
  }

  lemma {:induction false} WeightOfOne(ids: seq<nat>, x: nat)
    ensures Weight(ids, {x}) == Times(ids, x)
    decreases |ids|
  {
    if ids != [] { WeightOfOne(ids[..|ids| - 1], x); }
  }

  lemma {:induction false} WeightOutside(ids: seq<nat>, s: set<nat>)
    requires forall x :: x in s ==> x !in ids
    ensures Weight(ids, s) == 0
    decreases |ids|
  {
    if ids != [] { WeightOutside(ids[..|ids| - 1], s); }
  }

  lemma {:induction false} WeightOfAll(ids: seq<nat>, s: set<nat>)
    requires forall x :: x in ids ==> x in s
    ensures Weight(ids, s) == |ids|
    decreases |ids|
  {
    if ids != [] { WeightOfAll(ids[..|ids| - 1], s); }
  }

  lemma {:induction false} WeightAtLeastSize(ids: seq<nat>, s: set<nat>)
    requires s <= Elements(ids)
    ensures Weight(ids, s) >= |s|
    decreases s
  {
    hide Weight, Times;
    if s != {} {
      var x :| x in s;
      WeightAtLeastSize(ids, s - {x});
      WeightOfUnion(ids, s - {x}, {x});
      WeightOfOne(ids, x);
      TimesPositive(ids, x);
      assert s == s - {x} + {x};
    }
  }

  lemma WeightWithTwo(ids: seq<nat>, s: set<nat>, x: nat, y: nat)
    requires s <= Elements(ids) && x in s && y in s && x != y
    ensures Weight(ids, s) + 2 >= Times(ids, x) + Times(ids, y) + |s|
  {
    hide Weight, Times;
    var rest := s - {x} - {y};
    WeightAtLeastSize(ids, rest);
    WeightOfOne(ids, x);
    WeightOfOne(ids, y);
    WeightOfUnion(ids, {x}, {y});
    WeightOfUnion(ids, {x} + {y}, rest);
    assert s == {x} + {y} + rest;
    assert |s| == 2 + |rest|;
  }

  lemma {:induction false} TruesAreWeight(ids: seq<nat>, s: set<nat>)
    ensures Trues(Values(x => x in s, ids)) == Weight(ids, s)
    decreases |ids|
  {
    if ids != [] {
      TruesAreWeight(ids[..|ids| - 1], s);
      assert Values(x => x in s, ids)[..|ids| - 1] == Values(x => x in s, ids[..|ids| - 1]);
    }
  }

  lemma AgreeWins(a: seq<nat>, b: seq<nat>, s: set<nat>)
    requires Agree(MAJ, a, b)
    ensures Wins(a, s) <==> Wins(b, s)
  {
    hide Trues, Values;
    var val: nat -> bool := x => x in s;
    TruesAreWeight(a, s);
    TruesAreWeight(b, s);
    assert Eval(MAJ, Values(val, a)) == Eval(MAJ, Values(val, b));
  }

  // ----- an input with a majority decides

  lemma {:induction false} TruesAgainstOne(val: nat -> bool, ids: seq<nat>, x: nat)
    ensures val(x) ==> Trues(Values(val, ids)) >= Times(ids, x)
    ensures !val(x) ==> Trues(Values(val, ids)) + Times(ids, x) <= |ids|
    decreases |ids|
  {
    if ids != [] {
      TruesAgainstOne(val, ids[..|ids| - 1], x);
      assert Values(val, ids)[..|ids| - 1] == Values(val, ids[..|ids| - 1]);
    }
  }

  lemma DominatedAgree(a: seq<nat>, b: seq<nat>, x: nat)
    requires Dominates(a, x) && Dominates(b, x)
    ensures Agree(MAJ, a, b)
  {
    hide Trues, Values, Times;
    forall val: nat -> bool ensures Eval(MAJ, Values(val, a)) == Eval(MAJ, Values(val, b)) {
      TruesAgainstOne(val, a, x);
      TruesAgainstOne(val, b, x);
    }
  }

  // ----- agreement comes from such an input

  lemma {:induction false} MinimalWinner(ids: seq<nat>, s: set<nat>) returns (m: set<nat>)
    requires Wins(ids, s)
    ensures m <= s && Wins(ids, m) && forall x :: x in m ==> !Wins(ids, m - {x})
    decreases s
  {
    if x :| x in s && Wins(ids, s - {x}) {
      m := MinimalWinner(ids, s - {x});
    } else {
      m := s;
    }
  }

  /** What wins in a wins without the inputs that only a has, because it wins in b. */
  lemma CommonWin(a: seq<nat>, b: seq<nat>, common: set<nat>)
    requires Agree(MAJ, a, b) && a != [] && common == Elements(a) * Elements(b)
    ensures Wins(b, common)
  {
    hide Agree, Times;
    var onlyA := Elements(a) - Elements(b);
    WeightOfAll(a, Elements(a));
    AgreeWins(a, b, Elements(a));
    WeightOutside(b, onlyA);
    WeightOfUnion(b, onlyA, common);
    assert Elements(a) == onlyA + common;
  }

  /** An input of a minimal winner is listed more often than all inputs together that only b has. */
  lemma WinnerOutweighs(a: seq<nat>, b: seq<nat>, m: set<nat>, x: nat)
    requires Agree(MAJ, a, b) && m <= Elements(a) * Elements(b) && x in m
    requires Wins(b, m) && !Wins(b, m - {x})
    ensures Times(b, x) > Weight(b, Elements(b) - Elements(a))
  {
    hide Agree, Times;
    var onlyB, rest := Elements(b) - Elements(a), m - {x};
    AgreeWins(a, b, rest);
    WeightOutside(a, onlyB);
    WeightOfUnion(a, rest, onlyB);
    AgreeWins(a, b, rest + onlyB);
    WeightOfUnion(b, rest, onlyB);
    WeightOfUnion(b, rest, {x});
    WeightOfOne(b, x);
    assert m == rest + {x};
  }

  /** Two lists whose elements together are as many as each has entries cannot have two such inputs. */
  lemma OnlyOneOutweighs(b: seq<nat>, common: set<nat>, onlyB: set<nat>, onlyA: nat, x: nat, y: nat)
    requires common !! onlyB && Elements(b) == common + onlyB && |b| == onlyA + |onlyB| + |common|
    requires onlyA <= |onlyB| && onlyB != {}
    requires x in common && y in common && Times(b, x) > Weight(b, onlyB) && Times(b, y) > Weight(b, onlyB)
    ensures x == y
  {
    hide Weight, Times;
    WeightAtLeastSize(b, onlyB);
    WeightOfUnion(b, common, onlyB);
    WeightOfAll(b, common + onlyB);
    if x != y { WeightWithTwo(b, common, x, y); }
  }

  lemma SetSizes(a: set<nat>, b: set<nat>)
    ensures |a + b| == |a - b| + |b - a| + |a * b|
  {
    assert a + b == (a - b) + (b - a) + a * b;
  }

  /** The list with more inputs of its own has an input with a majority. */
  lemma SomeDominates(a: seq<nat>, b: seq<nat>)
    requires Agree(MAJ, a, b) && Accepts(a, b)
    requires |Elements(a) - Elements(b)| <= |Elements(b) - Elements(a)| && Elements(b) - Elements(a) != {}
    ensures exists x :: Dominates(a, x) && Dominates(b, x)
  {
    hide Agree, Times, Weight;
    var common, onlyB := Elements(a) * Elements(b), Elements(b) - Elements(a);
    assert a != [];
    CommonWin(a, b, common);
    var m := MinimalWinner(b, common);
    WeightOutside(b, {});
    assert m != {};
    var x :| x in m;
    SetSizes(Elements(a), Elements(b));
    forall y | y in m ensures y == x {
      WinnerOutweighs(a, b, m, x);
      WinnerOutweighs(a, b, m, y);
      assert Elements(b) == common + onlyB;
      OnlyOneOutweighs(b, common, onlyB, |Elements(a) - Elements(b)|, x, y);
    }
    assert m == {x};
    AgreeWins(a, b, m);
    WeightOfOne(a, x);
    WeightOfOne(b, x);
    assert Dominates(a, x) && Dominates(b, x);
  }

  lemma AgreeBothWays(f: Func, a: seq<nat>, b: seq<nat>)
    requires Combinational(f) && Agree(f, a, b)
    ensures Agree(f, b, a)
  {
    forall val: nat -> bool ensures Eval(f, Values(val, b)) == Eval(f, Values(val, a)) {
      assert Eval(f, Values(val, a)) == Eval(f, Values(val, b));
    }
  }

  /** A majority gate that is accepted computes what was requested exactly when neither list repeats an input or one
      input has the majority in both. */
  lemma AcceptedMajorityIff(ids: seq<nat>, own: seq<nat>)
    requires Accepts(ids, own)
    ensures Agree(MAJ, ids, own) <==>
      (Distinct(ids) && Distinct(own)) || exists x :: Dominates(ids, x) && Dominates(own, x)
  {
    hide Agree, Distinct, Dominates;
    if Agree(MAJ, ids, own) {
      if Elements(ids) == Elements(own) {
        ElementsSize(ids);
        ElementsSize(own);
        assert Elements(ids) + Elements(own) == Elements(ids);
      } else if |Elements(ids) - Elements(own)| <= |Elements(own) - Elements(ids)| {
        assert Elements(own) - Elements(ids) != {};
        SomeDominates(ids, own);
      } else {
        AgreeBothWays(MAJ, ids, own);
        assert Elements(own) + Elements(ids) == Elements(ids) + Elements(own);
        SomeDominates(own, ids);
      }
    }
    if Distinct(ids) && Distinct(own) {
      DistinctAgree(MAJ, ids, own);
    } else if x :| Dominates(ids, x) && Dominates(own, x) {
      DominatedAgree(ids, own, x);
    }
  }

  lemma DistinctAgree(f: Func, ids: seq<nat>, own: seq<nat>)
    requires IsCommutative(f) && Accepts(ids, own) && Distinct(ids) && Distinct(own)
    ensures Agree(f, ids, own)
  {
    hide Distinct, Accepts, Eval, Values;
    forall val: nat -> bool ensures Eval(f, Values(val, ids)) == Eval(f, Values(val, own)) {
      SharedComputesSame(f, ids, own, val);
    }
  }
}
