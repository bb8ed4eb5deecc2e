/** Sequences and finite sets: what the other modules use of them. */
module Sequences {

  ghost predicate Distinct<T>(s: seq<T>) {
    forall i, j :: 0 <= i < j < |s| ==> s[i] != s[j]
  }

  function Elements<T(==)>(s: seq<T>): set<T> { set x | x in s }

  /** How often x occurs in s. */
  function Times(s: seq<nat>, x: nat): nat {
    if s == [] then 0 else Times(s[..|s| - 1], x) + (if s[|s| - 1] == x then 1 else 0)
  }

  ghost predicate Before<T>(s: seq<T>, u: T, w: T) {
    exists i, j :: 0 <= i < j < |s| && s[i] == u && s[j] == w
  }

  /** a is b with some elements left out. */
  ghost predicate Subsequence<T>(a: seq<T>, b: seq<T>) {
    a == [] ||
    (b != [] && (Subsequence(a, b[..|b| - 1]) ||
                 (a[|a| - 1] == b[|b| - 1] && Subsequence(a[..|a| - 1], b[..|b| - 1]))))
  }

  // ----- occurrences

  lemma {:induction false} TimesDistinct(s: seq<nat>, x: nat)
    requires Distinct(s)
    ensures Times(s, x) == if x in s then 1 else 0
    decreases |s|
  {
    if s != [] { TimesDistinct(s[..|s| - 1], x); }
  }

  lemma {:induction false} TimesAppend(s: seq<nat>, t: seq<nat>, x: nat)
    ensures Times(s + t, x) == Times(s, x) + Times(t, x)
    decreases |t|
  {
    if t == [] {
      assert s + t == s;
    } else {
      assert (s + t)[..|s + t| - 1] == s + t[..|t| - 1];
      TimesAppend(s, t[..|t| - 1], x);
    }
  }

  lemma {:induction false} TimesPositive(s: seq<nat>, x: nat)
    ensures Times(s, x) > 0 <==> x in s
    decreases |s|
  {
    if s != [] { TimesPositive(s[..|s| - 1], x); }
  }

  lemma {:induction false} TimesOfTwo(s: seq<nat>, x: nat, y: nat)
    ensures Times(s, x) <= |s| && (x != y ==> Times(s, x) + Times(s, y) <= |s|)
    decreases |s|
  {
    if s != [] { TimesOfTwo(s[..|s| - 1], x, y); }
  }

  lemma DistinctAppend<T>(s: seq<T>, x: T)
    requires Distinct(s) && x !in s
    ensures Distinct(s + [x])
  {
  }

  // ----- sizes

  lemma {:induction false} ElementsSize<T>(s: seq<T>)
    ensures |Elements(s)| <= |s| && (|Elements(s)| == |s| <==> Distinct(s))
    decreases |s|
  {
    if s != [] {
      var front, last := s[..|s| - 1], s[|s| - 1];
      ElementsSize(front);
      assert Elements(s) == Elements(front) + {last};
      if Distinct(front) && last !in front { assert Distinct(s); }
    }
  }

  lemma ElementsAppend<T>(a: seq<T>, b: seq<T>)
    ensures Elements(a + b) == Elements(a) + Elements(b)
  {
  }

  lemma SubsetSize<T>(a: set<T>, b: set<T>)
    requires a <= b
    ensures |a| <= |b| && (|a| == |b| ==> a == b)
  {
    assert b == a + (b - a);
  }

  function Below(n: nat): (s: set<nat>)
    ensures forall v: nat :: v in s <==> v < n
  {
    if n == 0 then {} else Below(n - 1) + {n - 1}
  }

  lemma FullSet(s: set<nat>, n: nat)
    requires |s| == n && forall v :: v in s ==> v < n
    ensures s == Below(n)
  {
    BelowSize(n);
    SubsetSize(s, Below(n));
  }

  lemma {:induction false} BelowSize(n: nat)
    ensures |Below(n)| == n
    decreases n
  {
    if n > 0 {
      BelowSize(n - 1);
      var smaller := Below(n - 1);
      assert n - 1 !in smaller && Below(n) == smaller + {n - 1};
      hide Below;
    }
  }
}
