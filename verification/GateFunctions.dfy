/** The gate symbols of src/gate/model/gsymbol.h and gsymbol.cpp: their properties, codes and meanings. */
module GateFunctions {
  import opened Sequences
  import opened Netlist

  predicate IsConstant(f: Func) { f == ZERO || f == ONE }

  predicate IsIdentity(f: Func) { f == NOP }

  predicate IsCommutative(f: Func) {
    f == AND || f == OR || f == XOR || f == NAND || f == NOR || f == XNOR || f == MAJ
  }

  /** The 16-bit value of the symbol. Created symbols are numbered from XXX = 16 on, below 16536. */
  function Code(f: Func): nat {
    match f
    case IN => 0 case OUT => 1 case ZERO => 2 case ONE => 3 case NOP => 4 case NOT => 5 case AND => 6 case OR => 7
    case XOR => 8 case NAND => 9 case NOR => 10 case XNOR => 11 case MAJ => 12 case LATCH => 13 case DFF => 14
    case DFFrs => 15 case Custom(k) => 16 + k
  }

  /** Symbols with codes below 2^16 keep them in a key. */
  lemma CodesDiffer(f: Func, g: Func)
    requires Code(f) == Code(g)
    ensures f == g
  {
  }

  /** How many of the values are true. */
  function Trues(args: seq<bool>): nat {
    if args == [] then 0 else Trues(args[..|args| - 1]) + (if args[|args| - 1] then 1 else 0)
  }

  /** Symbols with a meaning as a function of their inputs. */
  predicate Combinational(f: Func) { IsCommutative(f) || IsConstant(f) || f == NOP || f == NOT }

  function Parity(args: seq<bool>): bool {
    args != [] && args[|args| - 1] != Parity(args[..|args| - 1])
  }

  /** The meaning of a gate, from the comments of gsymbol.h. */
  function Eval(f: Func, args: seq<bool>): bool
    requires Combinational(f)
  {
    match f
    case ZERO => false
    case ONE => true
    case NOP => args != [] && args[0]
    case NOT => args == [] || !args[0]
    case AND => false !in args
    case OR => true in args
    case XOR => Parity(args)
    case NAND => false in args
    case NOR => true !in args
    case XNOR => !Parity(args)
    case MAJ => 2 * Trues(args) > |args|
  }

  lemma {:induction false} TruesDecide(args: seq<bool>)
    ensures true in args <==> Trues(args) > 0
    ensures false in args <==> Trues(args) < |args|
    ensures Trues(args) <= |args|
    ensures Parity(args) <==> Trues(args) % 2 == 1
    decreases |args|
  {
    if args != [] {
      var front, last := args[..|args| - 1], args[|args| - 1];
      TruesDecide(front);
      assert args == front + [last];
      assert forall x :: x in args <==> x in front || x == last;
    }
  }

  lemma EvalOfOne(x: bool)
    ensures Eval(AND, [x]) == x && Eval(OR, [x]) == x && Eval(XOR, [x]) == x && Eval(NOP, [x]) == x
    ensures Eval(NOT, [x]) == !x
  {
    var args := [x];
    assert args[..|args| - 1] == [] && args[0] in args;
    assert !Parity(args[..|args| - 1]);
  }

  /** The gates input by input: X & Y & ..., X | Y | ..., X + Y + ... modulo 2, and their negations. */
  lemma EvalFolds(args: seq<bool>, x: bool)
    ensures Eval(AND, args + [x]) == (Eval(AND, args) && x) && Eval(OR, args + [x]) == (Eval(OR, args) || x)
    ensures Eval(XOR, args + [x]) == (Eval(XOR, args) != x)
    ensures Eval(NAND, args) == !Eval(AND, args) && Eval(NOR, args) == !Eval(OR, args)
    ensures Eval(XNOR, args) == !Eval(XOR, args)
  {
    var longer := args + [x];
    assert longer[..|longer| - 1] == args && longer[|longer| - 1] == x;
    assert forall b :: b in longer <==> b in args || b == x;
  }

  /** The majority of three is true when two of them are. */
  lemma EvalMajority(x: bool, y: bool, z: bool)
    ensures Eval(MAJ, [x, y, z]) == ((x && y) || (x && z) || (y && z))
  {
    assert [x, y, z][..2] == [x, y] && [x, y][..1] == [x] && [x][..0] == [];
    assert Trues([x]) == if x then 1 else 0;
    assert Trues([x, y]) == Trues([x]) + (if y then 1 else 0);
    assert Trues([x, y, z]) == Trues([x, y]) + (if z then 1 else 0);
  }

  /** A commutative gate looks at nothing but how many of its inputs are true. */
  lemma CommutativeByCount(f: Func, a: seq<bool>, b: seq<bool>)
    requires IsCommutative(f) && |a| == |b| && Trues(a) == Trues(b)
    ensures Eval(f, a) == Eval(f, b)
  {
    TruesDecide(a);
    TruesDecide(b);
  }

  // ----- valuations

  /** The values of the signals under a valuation of the nodes. */
  function Values(val: nat -> bool, ids: seq<nat>): (r: seq<bool>)
    ensures |r| == |ids| && forall i :: 0 <= i < |ids| ==> r[i] == val(ids[i])
  {
    if ids == [] then [] else Values(val, ids[..|ids| - 1]) + [val(ids[|ids| - 1])]
  }

  function TrueIds(val: nat -> bool, ids: seq<nat>): set<nat> { set x | x in ids && val(x) }

  lemma TrueIdsStep(val: nat -> bool, front: seq<nat>, last: nat)
    requires last !in front
    ensures |TrueIds(val, front + [last])| == |TrueIds(val, front)| + (if val(last) then 1 else 0)
  {
    if val(last) {
      assert TrueIds(val, front + [last]) == TrueIds(val, front) + {last};
    } else {
      assert TrueIds(val, front + [last]) == TrueIds(val, front);
    }
  }

  lemma {:induction false} TruesOfDistinct(val: nat -> bool, ids: seq<nat>)
    requires Distinct(ids)
    ensures Trues(Values(val, ids)) == |TrueIds(val, ids)|
    decreases |ids|
  {
    if ids != [] {
      var front, last := ids[..|ids| - 1], ids[|ids| - 1];
      assert Distinct(front) && last !in front && ids == front + [last];
      hide Distinct, TrueIds;
      TruesOfDistinct(val, front);
      TrueIdsStep(val, front, last);
      assert Values(val, ids)[..|ids| - 1] == Values(val, front);
    } else {
      assert TrueIds(val, ids) == {};
    }
  }

  /** Duplicate-free inputs in any order give a commutative gate the same value. */
  lemma CommutativeOnSets(f: Func, val: nat -> bool, a: seq<nat>, b: seq<nat>)
    requires IsCommutative(f) && Distinct(a) && Distinct(b) && |a| == |b| && Elements(a) == Elements(b)
    ensures Eval(f, Values(val, a)) == Eval(f, Values(val, b))
  {
    TruesOfDistinct(val, a);
    TruesOfDistinct(val, b);
    assert TrueIds(val, a) == TrueIds(val, b) by {
      forall x ensures x in a <==> x in b { assert x in Elements(a) <==> x in Elements(b); }
    }
    CommutativeByCount(f, Values(val, a), Values(val, b));
  }
}
