/** The balance window and the initial partition of FMAlgo (src/util/fm.cpp:66-96); the ratio r is an exact real. */
module Balance {
  import opened Hypergraphs
  import opened FmRuns

  function Ceil(x: real): int { -((-x).Floor) }

  /** Conversion from double to int: towards zero. */
  function Truncate(x: real): int { if x >= 0.0 then x.Floor else Ceil(x) }

  /** Integer division by 2, towards zero. */
  function Half(x: int): int { if x >= 0 then x / 2 else -((-x) / 2) }

  /** The largest of the first k weights, and at least 0. */
  function MaxOf(weights: seq<int>, k: nat): (m: int)
    requires k <= |weights|
    ensures m >= 0
  {
    if k == 0 then 0
    else if MaxOf(weights, k - 1) < weights[k - 1] then weights[k - 1] else MaxOf(weights, k - 1)
  }

  /** The largest weight bounds all weights, and is one of them unless they are all below 0. */
  lemma {:induction false} MaxOfIsMaximum(weights: seq<int>, k: nat)
    requires k <= |weights|
    ensures forall v :: 0 <= v < k ==> weights[v] <= MaxOf(weights, k)
    ensures (exists v :: 0 <= v < k && weights[v] >= 0) ==> exists v :: 0 <= v < k && weights[v] == MaxOf(weights, k)
    ensures (forall v :: 0 <= v < k ==> weights[v] < 0) ==> MaxOf(weights, k) == 0
    decreases k
  {
    if k > 0 {
      MaxOfIsMaximum(weights, k - 1);
      if weights[k - 1] >= MaxOf(weights, k - 1) { assert weights[k - 1] == MaxOf(weights, k); }
    }
  }

  /** Rounding up gives the least integer that is not below x, and truncation the integer next to x on the side of 0. */
  lemma Rounded(x: real)
    ensures x <= Ceil(x) as real < x + 1.0
    ensures x >= 0.0 ==> x - 1.0 < Truncate(x) as real <= x
    ensures x < 0.0 ==> x <= Truncate(x) as real < x + 1.0
  {
  }

  /** m is the largest weight, or 0 if all weights are below 0 or there are none. */
  ghost predicate IsMaximum(weights: seq<int>, m: int) {
    && (forall v :: 0 <= v < |weights| ==> weights[v] <= m)
    && ((exists v :: 0 <= v < |weights| && weights[v] == m >= 0) ||
        (m == 0 && forall v :: 0 <= v < |weights| ==> weights[v] < 0))
  }

  /** The window around the target x: it starts at x rounded up, less the largest weight m, and ends at x truncated,
      plus m. */
  ghost predicate IsAround(w: Window, x: real, m: int) {
    && x <= (w.lower + m) as real < x + 1.0
    && (x >= 0.0 ==> x - 1.0 < (w.upper - m) as real <= x)
    && (x < 0.0 ==> x <= (w.upper - m) as real < x + 1.0)
  }

  lemma WindowIsAroundTarget(h: Csr, r: real)
    ensures exists m :: IsMaximum(h.weights, m) && IsAround(WindowOf(h, r), r * (Total(h) as real), m)
  {
    hide Ceil, Truncate, MaxOf;
    MaxOfIsMaximum(h.weights, |h.weights|);
    Rounded(Target(h, r));
    assert IsMaximum(h.weights, MaxOf(h.weights, |h.weights|));
    hide IsMaximum;
  }

  function Target(h: Csr, r: real): real { r * (Total(h) as real) }

  function WindowOf(h: Csr, r: real): Window {
    Window(Ceil(Target(h, r)) - MaxOf(h.weights, NNodes(h)), Truncate(Target(h, r)) + MaxOf(h.weights, NNodes(h)))
  }

  ghost predicate NonNegative(weights: seq<int>) {
    forall v :: 0 <= v < |weights| ==> weights[v] >= 0
  }

  /** Nodes go to side 0 as long as its area is below mid. */
  ghost predicate Filling(weights: seq<int>, mid: int, sides: seq<bool>) {
    |sides| <= |weights| && forall v :: 0 <= v < |sides| ==> (sides[v] <==> Area(weights, sides, false, v) >= mid)
  }

  ghost predicate Filled(weights: seq<int>, mid: int, sides: seq<bool>) {
    |sides| == |weights| && Filling(weights, mid, sides)
  }

  lemma {:induction false} AreaOfLonger(weights: seq<int>, sides: seq<bool>, longer: seq<bool>, s: bool, k: nat)
    requires k <= |weights| && k <= |sides| && sides <= longer
    ensures Area(weights, longer, s, k) == Area(weights, sides, s, k)
    decreases k
  {
    if k > 0 { AreaOfLonger(weights, sides, longer, s, k - 1); }
  }

  lemma FillNone(weights: seq<int>, mid: int)
    ensures Filling(weights, mid, []) && Area(weights, [], false, 0) == Area(weights, [], true, 0) == 0
  {
  }

  lemma FillOne(weights: seq<int>, mid: int, sides: seq<bool>, b: bool)
    requires Filling(weights, mid, sides) && |sides| < |weights|
    requires b <==> Area(weights, sides, false, |sides|) >= mid
    ensures Filling(weights, mid, sides + [b])
    ensures forall s :: Area(weights, sides + [b], s, |sides| + 1) ==
                        Area(weights, sides, s, |sides|) + (if s == b then weights[|sides|] else 0)
  {
    hide Area;
    forall s, v: nat | v <= |sides| ensures Area(weights, sides + [b], s, v) == Area(weights, sides, s, v) {
      AreaOfLonger(weights, sides, sides + [b], s, v);
    }
    forall s
      ensures Area(weights, sides + [b], s, |sides| + 1) ==
              Area(weights, sides + [b], s, |sides|) + (if s == b then weights[|sides|] else 0)
    {
      AreaStep(weights, sides + [b], s, |sides|);
    }
  }

  lemma AreaStep(weights: seq<int>, sides: seq<bool>, s: bool, k: nat)
    requires k < |weights| && k < |sides|
    ensures Area(weights, sides, s, k + 1) == Area(weights, sides, s, k) + (if s == sides[k] then weights[k] else 0)
  {
  }

  lemma {:induction false} MaxAndTotal(weights: seq<int>, k: nat)
    requires k <= |weights|
    ensures forall v :: 0 <= v < k ==> weights[v] <= MaxOf(weights, k)
    ensures NonNegative(weights) ==> TotalOf(weights, k) >= 0
    ensures MaxOf(weights, k) == 0 ==> TotalOf(weights, k) <= 0
    decreases k
  {
    if k > 0 { MaxAndTotal(weights, k - 1); }
  }

  function Middle(w: Window): int { w.lower + Half(w.upper - w.lower) }

  lemma MiddleIsTruncation(x: real, max: int)
    requires max >= 0 && (max == 0 ==> x == 0.0)
    ensures Middle(Window(Ceil(x) - max, Truncate(x) + max)) == Truncate(x)
  {
  }

  /** Side 0 stops growing within one weight of mid, and reaches mid if the total does. */
  lemma {:induction false} FilledBounds(weights: seq<int>, mid: int, sides: seq<bool>, k: nat)
    requires Filled(weights, mid, sides) && NonNegative(weights) && k <= |weights|
    ensures 0 <= Area(weights, sides, false, k) <= TotalOf(weights, k)
    ensures Area(weights, sides, false, k) == 0 || Area(weights, sides, false, k) < mid + MaxOf(weights, |weights|)
    ensures Area(weights, sides, false, k) >= mid || Area(weights, sides, false, k) == TotalOf(weights, k)
    decreases k
  {
    if k > 0 {
      FilledBounds(weights, mid, sides, k - 1);
      MaxAndTotal(weights, |weights|);
    }
  }

  /** The numbers behind InitialBalance. */
  lemma WindowMeetsArea(x: real, max: int, total: int, area: int)
    requires max >= 0 && 0 <= area <= total && (max == 0 ==> total == 0 && x == 0.0)
    requires area == 0 || area < Truncate(x) + max
    requires area >= Truncate(x) || area == total
    ensures Ceil(x) - max <= area <= Truncate(x) + max <==> Ceil(x) - max <= total && 0 <= Truncate(x) + max
    ensures 0.0 <= x <= total as real ==> Ceil(x) - max <= total && 0 <= Truncate(x) + max
  {
    if 0.0 <= x <= total as real { assert Ceil(x) <= total; }
  }

  lemma TargetBounds(h: Csr, r: real)
    requires 0.0 <= r <= 1.0 && Total(h) >= 0
    ensures 0.0 <= Target(h, r) <= Total(h) as real
  {
    var t := Total(h) as real;
    assert r * t >= 0.0 && (1.0 - r) * t >= 0.0;
  }

  lemma ZeroTarget(h: Csr, r: real)
    requires Total(h) == 0
    ensures Target(h, r) == 0.0
  {
  }

  /** The initial partition is balanced exactly when the window meets the areas a side can have at all, [0, total];
      any ratio between 0 and 1 makes it so. */
  lemma InitialBalance(h: Csr, r: real, sides: seq<bool>)
    requires NonNegative(h.weights)
    requires Filled(h.weights, Middle(WindowOf(h, r)), sides)
    ensures InWindow(h, WindowOf(h, r), sides) <==> WindowOf(h, r).lower <= Total(h) && 0 <= WindowOf(h, r).upper
    ensures 0.0 <= r <= 1.0 ==> InWindow(h, WindowOf(h, r), sides)
  {
    hide Ceil, Truncate, Middle, Target, Area, TotalOf, MaxOf;
    var n := NNodes(h);
    MaxAndTotal(h.weights, n);
    if Total(h) == 0 { ZeroTarget(h, r); }
    MiddleIsTruncation(Target(h, r), MaxOf(h.weights, n));
    FilledBounds(h.weights, Truncate(Target(h, r)), sides, n);
    WindowMeetsArea(Target(h, r), MaxOf(h.weights, n), Total(h), AreaOf(h, sides, false));
    if 0.0 <= r <= 1.0 { TargetBounds(h, r); }
  }
}
