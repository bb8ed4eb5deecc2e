/** The gain buckets of a pass (src/util/fm.cpp:37-46): gain[i] lists the unlocked nodes of gain maxDegree - i,
    ptrGain[v] is the index of v's bucket, and -1 marks a locked node. The list iterator of a node stands for the
    node's one occurrence in its bucket. */
module GainBuckets {
  import opened Sequences

  ghost predicate Buckets(n: nat, d: int, gain: seq<seq<nat>>, ptrGain: seq<int>) {
    && d >= 0 && |gain| == 2 * d + 1 && |ptrGain| == n
    && (forall v :: 0 <= v < n ==> -1 <= ptrGain[v] <= 2 * d)
    && (forall v: nat :: v < n && ptrGain[v] != -1 ==> v in gain[ptrGain[v]])
    && (forall b :: 0 <= b < |gain| ==> Distinct(gain[b]))
    && (forall b :: 0 <= b < |gain| ==> forall v :: v in gain[b] ==> v < n && ptrGain[v] == b)
  }

  function Erase(bucket: seq<nat>, v: nat): seq<nat> {
    if bucket == [] then []
    else if bucket[|bucket| - 1] == v then bucket[..|bucket| - 1]
    else Erase(bucket[..|bucket| - 1], v) + [bucket[|bucket| - 1]]
  }

  lemma {:induction false} ErasePart(bucket: seq<nat>, v: nat)
    requires Distinct(bucket)
    ensures forall x :: x in Erase(bucket, v) <==> x in bucket && x != v
    ensures Distinct(Erase(bucket, v))
    decreases |bucket|
  {
    if bucket != [] {
      var front, last := bucket[..|bucket| - 1], bucket[|bucket| - 1];
      ErasePart(front, v);
      assert bucket == front + [last] && last !in front;
      if last != v {
        assert last !in Erase(front, v);
        assert forall x :: x in Erase(bucket, v) <==> x in Erase(front, v) || x == last;
      }
    }
  }

  /** The nodes left keep their order. */
  lemma {:induction false} EraseSplit(a: seq<nat>, v: nat, b: seq<nat>)
    requires v !in b
    ensures Erase(a + [v] + b, v) == a + b
    decreases |b|
  {
    var bucket := a + [v] + b;
    if b == [] {
      assert bucket[..|bucket| - 1] == a == a + b;
    } else {
      var front, last := b[..|b| - 1], b[|b| - 1];
      EraseSplit(a, v, front);
      assert bucket[..|bucket| - 1] == a + [v] + front;
      assert a + front + [last] == a + b;
    }
  }

  lemma EraseKeepsOrder(bucket: seq<nat>, v: nat)
    requires Distinct(bucket)
    ensures forall a: seq<nat>, b: seq<nat> :: bucket == a + [v] + b ==> Erase(bucket, v) == a + b
  {
    forall a: seq<nat>, b: seq<nat> | bucket == a + [v] + b ensures Erase(bucket, v) == a + b {
      assert bucket[|a|] == v && forall i :: 0 <= i < |b| ==> bucket[|a| + 1 + i] == b[i];
      EraseSplit(a, v, b);
    }
  }

  /** The gains a pass holds; Outside once an index has left the buckets, where the source reads and writes beyond its
      vector. */
  datatype Held = Held(gain: seq<seq<nat>>, ptrGain: seq<int>) | Outside

  ghost predicate InBuckets(n: nat, d: int, b: Held) {
    b.Held? && Buckets(n, d, b.gain, b.ptrGain)
  }

  /** Without the given node, which is locked. */
  function Taken(b: Held, v: nat): Held {
    if b.Held? && v < |b.ptrGain| && 0 <= b.ptrGain[v] < |b.gain|
    then Held(b.gain[b.ptrGain[v] := Erase(b.gain[b.ptrGain[v]], v)], b.ptrGain[v := -1])
    else b
  }

  /** With the given node in front of the given bucket. */
  function Put(b: Held, v: nat, index: int): Held {
    if b.Held? && v < |b.ptrGain| && 0 <= index < |b.gain|
    then Held(b.gain[index := [v] + b.gain[index]], b.ptrGain[v := index])
    else Outside
  }

  /** An unlocked node changes its gain by delta (src/util/fm.cpp:190-213), even if that is 0. */
  function Moved(b: Held, v: nat, delta: int): Held {
    if b.Outside? || v >= |b.ptrGain| || b.ptrGain[v] == -1 then b else Put(Taken(b, v), v, b.ptrGain[v] - delta)
  }

  lemma TakenKeeps(n: nat, d: int, b: Held, v: nat)
    requires InBuckets(n, d, b) && v < n && b.ptrGain[v] != -1
    ensures InBuckets(n, d, Taken(b, v)) && Taken(b, v).ptrGain == b.ptrGain[v := -1]
  {
    ErasePart(b.gain[b.ptrGain[v]], v);
    hide Distinct, Erase;
  }

  lemma PutKeeps(n: nat, d: int, b: Held, v: nat, index: int)
    requires InBuckets(n, d, b) && v < n && b.ptrGain[v] == -1 && 0 <= index <= 2 * d
    ensures InBuckets(n, d, Put(b, v, index)) && Put(b, v, index).ptrGain == b.ptrGain[v := index]
  {
    var longer := [v] + b.gain[index];
    assert Distinct(longer);
    assert forall x :: x in longer <==> x == v || x in b.gain[index];
    var g, p := b.gain[index := longer], b.ptrGain[v := index];
    forall x: nat | x < n && p[x] != -1 ensures x in g[p[x]] {
      if x != v { assert x in b.gain[b.ptrGain[x]]; }
    }
    forall c | 0 <= c < |g| ensures Distinct(g[c]) && forall x :: x in g[c] ==> x < n && p[x] == c {
      assert Distinct(b.gain[c]);
      forall x | x in g[c] ensures x < n && p[x] == c {
        assert x in b.gain[c] || (c == index && x == v);
      }
    }
  }

  lemma MovedKeeps(n: nat, d: int, b: Held, v: nat, delta: int)
    requires InBuckets(n, d, b) && v < n
    ensures b.ptrGain[v] == -1 ==> Moved(b, v, delta) == b
    ensures b.ptrGain[v] != -1 && 0 <= b.ptrGain[v] - delta <= 2 * d ==>
      InBuckets(n, d, Moved(b, v, delta)) && Moved(b, v, delta).ptrGain == b.ptrGain[v := b.ptrGain[v] - delta]
    ensures b.ptrGain[v] != -1 && !(0 <= b.ptrGain[v] - delta <= 2 * d) ==> Moved(b, v, delta) == Outside
  {
    hide Distinct, Erase;
    if b.ptrGain[v] != -1 {
      TakenKeeps(n, d, b, v);
      if 0 <= b.ptrGain[v] - delta <= 2 * d { PutKeeps(n, d, Taken(b, v), v, b.ptrGain[v] - delta); }
    }
  }

  /** Takes an unlocked node out of its bucket and locks it. */
  method Lock(n: nat, d: int, v: nat, gain: seq<seq<nat>>, ptrGain: seq<int>)
    returns (g: seq<seq<nat>>, p: seq<int>)
    requires Buckets(n, d, gain, ptrGain) && v < n && ptrGain[v] != -1
    ensures Buckets(n, d, g, p) && p == ptrGain[v := -1]
    ensures forall a, b :: gain[ptrGain[v]] == a + [v] + b ==> g == gain[ptrGain[v] := a + b]
    ensures Held(g, p) == Taken(Held(gain, ptrGain), v)
  {
    hide Distinct, Erase;
    TakenKeeps(n, d, Held(gain, ptrGain), v);
    var b := ptrGain[v];
    assert Distinct(gain[b]);
    EraseKeepsOrder(gain[b], v);
    g, p := gain[b := Erase(gain[b], v)], ptrGain[v := -1];
  }

  /** Puts a node that is in no bucket at the front of bucket b. */
  method Insert(n: nat, d: int, v: nat, b: int, gain: seq<seq<nat>>, ptrGain: seq<int>)
    returns (g: seq<seq<nat>>, p: seq<int>)
    requires Buckets(n, d, gain, ptrGain) && v < n && ptrGain[v] == -1 && 0 <= b <= 2 * d
    ensures Buckets(n, d, g, p) && p == ptrGain[v := b]
    ensures g == gain[b := [v] + gain[b]]
    ensures Held(g, p) == Put(Held(gain, ptrGain), v, b)
  {
    hide Distinct;
    PutKeeps(n, d, Held(gain, ptrGain), v, b);
    g, p := gain[b := [v] + gain[b]], ptrGain[v := b];
  }

  /** Moves an unlocked node to bucket b (src/util/fm.cpp:209-212). */
  method Rebucket(n: nat, d: int, v: nat, b: int, gain: seq<seq<nat>>, ptrGain: seq<int>)
    returns (g: seq<seq<nat>>, p: seq<int>)
    requires Buckets(n, d, gain, ptrGain) && v < n && ptrGain[v] != -1 && 0 <= b <= 2 * d
    ensures Buckets(n, d, g, p) && p == ptrGain[v := b]
    ensures forall before, after :: gain[ptrGain[v]] == before + [v] + after ==>
      var without := gain[ptrGain[v] := before + after];
      g == without[b := [v] + without[b]]
    ensures Held(g, p) == Moved(Held(gain, ptrGain), v, ptrGain[v] - b)
  {
    hide Distinct, Erase;
    g, p := Lock(n, d, v, gain, ptrGain);
    g, p := Insert(n, d, v, b, g, p);
    assert p == ptrGain[v := b];
  }

  lemma BucketsPart(n: nat, d: int, gain: seq<seq<nat>>, ptrGain: seq<int>)
    requires Buckets(n, d, gain, ptrGain)
    ensures |ptrGain| == n && forall v :: 0 <= v < n ==> -1 <= ptrGain[v] <= 2 * d
    ensures forall b :: 0 <= b < |gain| ==> forall v :: v in gain[b] ==> v < n
  {
  }

  lemma EmptyBuckets(d: int, gain: seq<seq<nat>>)
    requires d >= 0 && |gain| == 2 * d + 1 && forall b :: 0 <= b < |gain| ==> gain[b] == []
    ensures Buckets(0, d, gain, [])
  {
  }

  lemma OneMoreNode(n: nat, d: int, gain: seq<seq<nat>>, ptrGain: seq<int>)
    requires Buckets(n, d, gain, ptrGain)
    ensures Buckets(n + 1, d, gain, ptrGain + [-1])
  {
    hide Distinct;
  }

  /** Puts the next node, number n, at the front of bucket b. */
  method Append(n: nat, d: int, b: int, gain: seq<seq<nat>>, ptrGain: seq<int>)
    returns (g: seq<seq<nat>>, p: seq<int>)
    requires Buckets(n, d, gain, ptrGain) && 0 <= b <= 2 * d
    ensures Buckets(n + 1, d, g, p) && p == ptrGain + [b]
    ensures g == gain[b := [n] + gain[b]]
    ensures Held(g, p) == Put(Held(gain, ptrGain + [-1]), n, b)
  {
    OneMoreNode(n, d, gain, ptrGain);
    g, p := Insert(n + 1, d, n, b, gain, ptrGain + [-1]);
    assert p == ptrGain + [b];
  }
}
