/** Minimum redundancy code lengths, computed in place (compositor/jpge.cpp:163-182). */
module JpegMinimum {
  import opened Bits
  import opened Canonical

  // ---- Reference: Huffman's algorithm on a multiset of weights ----

  ghost predicate IsMin(ms: multiset<nat>, x: nat) {
    x in ms && forall y :: y in ms ==> x <= y
  }

  lemma MinExists(ms: multiset<nat>)
    requires ms != multiset{}
    ensures exists x :: IsMin(ms, x)
    decreases ms
  {
    var y :| y in ms;
    var rest := ms - multiset{y};
    if rest == multiset{} {
      assert ms == multiset{y};
      assert IsMin(ms, y);
    } else {
      MinExists(rest);
      var z :| IsMin(rest, z);
      assert forall u :: u in ms ==> u == y || u in rest;
      assert IsMin(ms, if y <= z then y else z);
    }
  }

  ghost function Min(ms: multiset<nat>): (x: nat)
    requires ms != multiset{}
    ensures IsMin(ms, x)
  {
    MinExists(ms);
    var x :| IsMin(ms, x);
    x
  }

  lemma MinUnique(ms: multiset<nat>, x: nat)
    requires IsMin(ms, x)
    ensures ms != multiset{} && Min(ms) == x
  {
  }

  /** The two smallest weights are merged until one is left; the cost is the sum of the merged weights. */
  ghost function HuffmanCost(ms: multiset<nat>): nat
    decreases |ms|
  {
    if |ms| <= 1 then 0
    else
      var x := Min(ms);
      assert |Minus(ms, x)| == |ms| - 1;
      var y := Min(Minus(ms, x));
      MergedSize(ms, x, y);
      x + y + HuffmanCost(Merged(ms, x, y))
  }

  /** The weights after merging two of them. */
  function Merged(ms: multiset<nat>, x: nat, y: nat): multiset<nat> { Minus(Minus(ms, x), y) + multiset{x + y} }

  lemma MergedSize(ms: multiset<nat>, x: nat, y: nat)
    requires x in ms && y in Minus(ms, x)
    ensures |Merged(ms, x, y)| == |ms| - 1
  {
  }

  /** The weights without one of them. */
  function Minus(ms: multiset<nat>, x: nat): multiset<nat> { ms - multiset{x} }

  /** One step of the algorithm, for weights known to be the smallest. */
  lemma HuffmanStep(ms: multiset<nat>, x: nat, y: nat)
    requires |ms| >= 2 && IsMin(ms, x) && IsMin(Minus(ms, x), y)
    ensures HuffmanCost(ms) == x + y + HuffmanCost(Merged(ms, x, y))
  {
    hide IsMin, Merged;
    MinUnique(ms, x);
    MinUnique(Minus(ms, x), y);
  }

  // ---- Lengths and their cost ----

  /** The Kraft sum in units of 2^-m. */
  function Kraft(l: seq<nat>, m: nat): nat
    requires forall i :: 0 <= i < |l| ==> l[i] <= m
  {
    if l == [] then 0 else Kraft(l[..|l| - 1], m) + Pow2(m - l[|l| - 1])
  }

  ghost predicate AtMost(l: seq<nat>, m: nat) { forall i :: 0 <= i < |l| ==> l[i] <= m }

  /** Lengths that fit into a prefix code. */
  ghost predicate Fits(l: seq<nat>, m: nat) { AtMost(l, m) && Kraft(l, m) <= Pow2(m) }

  // ---- Sums and positions ----

  function Without<T>(s: seq<T>, i: nat): (r: seq<T>)
    requires i < |s|
    ensures |r| == |s| - 1
  {
    s[..i] + s[i + 1..]
  }

  lemma {:induction false} CostWithout(w: seq<nat>, l: seq<nat>, i: nat)
    requires |w| == |l| && i < |w|
    ensures Cost(w, l) == Cost(Without(w, i), Without(l, i)) + w[i] * l[i]
  {
    var n := |w| - 1;
    if i < n {
      CostWithout(w[..n], l[..n], i);
      assert Without(w, i)[..n - 1] == Without(w[..n], i) && Without(l, i)[..n - 1] == Without(l[..n], i);
    } else {
      assert Without(w, i) == w[..n] && Without(l, i) == l[..n];
    }
  }

  lemma {:induction false} KraftWithout(l: seq<nat>, m: nat, i: nat)
    requires AtMost(l, m) && i < |l|
    ensures AtMost(Without(l, i), m) && Kraft(l, m) == Kraft(Without(l, i), m) + Pow2(m - l[i])
  {
    var n := |l| - 1;
    if i < n {
      KraftWithout(l[..n], m, i);
      assert Without(l, i)[..n - 1] == Without(l[..n], i);
    } else {
      assert Without(l, i) == l[..n];
    }
  }

  lemma CostPush(w: seq<nat>, l: seq<nat>, x: nat, k: nat)
    requires |w| == |l|
    ensures Cost(w + [x], l + [k]) == Cost(w, l) + x * k
  {
    assert (w + [x])[..|w|] == w && (l + [k])[..|l|] == l;
  }

  lemma KraftPush(l: seq<nat>, m: nat, k: nat)
    requires AtMost(l, m) && k <= m
    ensures AtMost(l + [k], m) && Kraft(l + [k], m) == Kraft(l, m) + Pow2(m - k)
  {
    assert (l + [k])[..|l|] == l;
  }

  lemma MultisetWithout(s: seq<nat>, i: nat)
    requires i < |s|
    ensures multiset(Without(s, i)) == multiset(s) - multiset{s[i]}
  {
    assert s == s[..i] + [s[i]] + s[i + 1..];
  }

  /** Swapping the lengths of two symbols. */
  lemma SwapCost(w: seq<nat>, l: seq<nat>, i: nat, j: nat, m: nat)
    requires |w| == |l| && i < |w| && j < |w| && i != j && AtMost(l, m)
    ensures
      var l' := l[i := l[j]][j := l[i]];
      && AtMost(l', m) && Kraft(l', m) == Kraft(l, m)
      && Cost(w, l') + w[i] * l[i] + w[j] * l[j] == Cost(w, l) + w[i] * l[j] + w[j] * l[i]
  {
    hide Cost, Kraft;
    ReplaceLength(w, l, i, l[j], m);
    ReplaceLength(w, l[i := l[j]], j, l[i], m);
  }

  lemma ReplaceLength(w: seq<nat>, l: seq<nat>, i: nat, k: nat, m: nat)
    requires |w| == |l| && i < |w| && AtMost(l, m) && k <= m
    ensures AtMost(l[i := k], m)
    ensures Cost(w, l[i := k]) + w[i] * l[i] == Cost(w, l) + w[i] * k
    ensures Kraft(l[i := k], m) + Pow2(m - l[i]) == Kraft(l, m) + Pow2(m - k)
  {
    hide Cost, Kraft;
    CostWithout(w, l, i);
    CostWithout(w, l[i := k], i);
    KraftWithout(l, m, i);
    KraftWithout(l[i := k], m, i);
    assert Without(l[i := k], i) == Without(l, i);
  }

  /** The smaller weight gets the larger length. */
  lemma SwapHelps(a: nat, b: nat, k: nat, l: nat)
    requires a <= b && k <= l
    ensures a * l + b * k <= a * k + b * l
  {
    assert (b - a) * (l - k) >= 0;
  }

  // ---- No prefix code is cheaper ----

  lemma {:induction false} Longest(l: seq<nat>, skip: nat) returns (j: nat)
    requires |l| >= 2 || (|l| == 1 && skip != 0)
    ensures j < |l| && j != skip && forall i :: 0 <= i < |l| && i != skip ==> l[i] <= l[j]
  {
    var n := |l| - 1;
    if n >= 2 || (n == 1 && skip != 0) {
      j := Longest(l[..n], skip);
      if n != skip && l[n] > l[j] { j := n; }
    } else {
      j := n;
    }
  }

  /** Every term of the Kraft sum is a multiple of the smallest but one, so there is room if just one length is largest. */
  lemma {:induction false} KraftMultiple(l: seq<nat>, m: nat, top: nat)
    requires AtMost(l, top) && top <= m
    ensures AtMost(l, m) && Kraft(l, m) % Pow2(m - top) == 0
  {
    hide Pow2, Kraft;
    if l != [] {
      var n := |l| - 1;
      KraftMultiple(l[..n], m, top);
      KraftLast(l, m);
      Pow2Add(m - top, top - l[n]);
      MultipleSum(Kraft(l[..n], m), Pow2(m - top), Pow2(top - l[n]));
    } else {
      KraftEmpty(m);
    }
  }

  lemma KraftLast(l: seq<nat>, m: nat)
    requires l != [] && AtMost(l, m)
    ensures AtMost(l[..|l| - 1], m) && Kraft(l, m) == Kraft(l[..|l| - 1], m) + Pow2(m - l[|l| - 1])
  {
    hide Pow2;
  }

  lemma KraftEmpty(m: nat)
    ensures Kraft([], m) == 0
  {
  }

  lemma MultipleSum(a: nat, p: nat, q: nat)
    requires p > 0 && a % p == 0
    ensures (a + p * q) % p == 0
  {
    var k := a / p;
    assert a == k * p + a % p;
    assert a + p * q == (k + q) * p;
    DivUnique(a + p * q, p, k + q, 0);
  }

  /** A sole longest length can be shortened. */
  lemma Shorten(l: seq<nat>, m: nat, i: nat)
    requires Fits(l, m) && i < |l| && l[i] > 0 && forall j :: 0 <= j < |l| && j != i ==> l[j] < l[i]
    ensures Fits(l[i := l[i] - 1], m)
  {
    var top := l[i];
    var rest := Without(l, i);
    KraftWithout(l, m, i);
    KraftMultiple(rest, m, top - 1);
    KraftWithout(l[i := top - 1], m, i);
    assert Without(l[i := top - 1], i) == rest;
    var p := Pow2(m - top);
    assert Pow2(m - (top - 1)) == 2 * p;
    Pow2Add(m - (top - 1), top - 1);
    RoomLeft(Kraft(rest, m), p, Pow2(top - 1), Pow2(m));
  }

  lemma RoomLeft(k: nat, p: nat, q: nat, whole: nat)
    requires p > 0 && k % (2 * p) == 0 && whole == 2 * p * q && k + p <= whole
    ensures k + 2 * p <= whole
  {
    var n := k / (2 * p);
    assert k == n * (2 * p) + k % (2 * p);
    assert whole == q * (2 * p);
    var d := n - q;
    assert d * (2 * p) == n * (2 * p) - q * (2 * p);
    MulAtLeast(d, 2 * p);
  }

  /** Shortens one symbol until another is at least as long. */
  lemma {:induction false} ShortenTo(w: seq<nat>, l: seq<nat>, m: nat, i: nat, k: nat) returns (l': seq<nat>)
    requires |w| == |l| && Fits(l, m) && i < |l| && k <= l[i]
    requires forall j :: 0 <= j < |l| && j != i ==> l[j] <= k
    ensures l' == l[i := k] && Fits(l', m) && Cost(w, l') <= Cost(w, l)
    decreases l[i]
  {
    if l[i] == k {
      l' := l;
      assert l[i := k] == l;
    } else {
      hide *;
      var shorter := l[i := l[i] - 1];
      Shorten(l, m, i);
      ShorterIsCheaper(w, l, i, m);
      l' := ShortenTo(w, shorter, m, i, k);
      assert shorter[i := k] == l[i := k];
    }
  }

  lemma ShorterIsCheaper(w: seq<nat>, l: seq<nat>, i: nat, m: nat)
    requires |w| == |l| && Fits(l, m) && i < |l| && l[i] > 0
    ensures Cost(w, l[i := l[i] - 1]) <= Cost(w, l)
  {
    hide Cost, Kraft;
    ReplaceLength(w, l, i, l[i] - 1, m);
    assert w[i] * (l[i] - 1) <= w[i] * l[i];
  }

  /** The symbol at i gets the largest length, except for the one at `skip`. */
  lemma GiveLongest(w: seq<nat>, l: seq<nat>, m: nat, i: nat, skip: nat, top: nat) returns (l': seq<nat>)
    requires |w| == |l| && Fits(l, m) && i < |l| && i != skip && AtMost(l, top)
    requires forall j :: 0 <= j < |w| && j != skip ==> w[i] <= w[j]
    ensures |l'| == |l| && Fits(l', m) && Cost(w, l') <= Cost(w, l) && AtMost(l', top)
    ensures forall j :: 0 <= j < |l| && j != skip ==> l'[j] <= l'[i]
    ensures skip < |l| ==> l'[skip] == l[skip]
  {
    hide Cost, Kraft;
    var j := Longest(l, skip);
    if j == i {
      l' := l;
    } else {
      SwapCost(w, l, i, j, m);
      SwapHelps(w[i], w[j], l[i], l[j]);
      l' := l[i := l[j]][j := l[i]];
    }
  }

  /** Two symbols of equal length joined into one that is a bit shorter. */
  lemma Join(w: seq<nat>, l: seq<nat>, m: nat, a: nat, b: nat) returns (w': seq<nat>, l': seq<nat>)
    requires |w| == |l| && Fits(l, m) && a < b < |w| && l[a] == l[b] > 0
    ensures |w'| == |l'| == |w| - 1 && Fits(l', m)
    ensures multiset(w') == Merged(multiset(w), w[a], w[b])
    ensures Cost(w, l) == Cost(w', l') + w[a] + w[b]
  {
    hide Cost, Kraft;
    var k := l[a] - 1;
    var w1, l1 := Without(w, b), Without(l, b);
    var w2, l2 := Without(w1, a), Without(l1, a);
    w', l' := w2 + [w[a] + w[b]], l2 + [k];
    hide Without, Merged, AtMost;
    JoinCost(w, l, a, b);
    JoinKraft(l, m, a, b);
    JoinWeights(w, a, b);
  }

  lemma JoinWeights(w: seq<nat>, a: nat, b: nat)
    requires a < b < |w|
    ensures multiset(Without(Without(w, b), a) + [w[a] + w[b]]) == Merged(multiset(w), w[a], w[b])
  {
    var w1 := Without(w, b);
    MultisetWithout(w, b);
    MultisetWithout(w1, a);
    assert w1[a] == w[a];
    var w2 := Without(w1, a);
    assert multiset(w2 + [w[a] + w[b]]) == multiset(w2) + multiset{w[a] + w[b]};
    MinusBoth(multiset(w), w[a], w[b]);
  }

  lemma MinusBoth(ms: multiset<nat>, x: nat, y: nat)
    ensures ms - multiset{y} - multiset{x} == ms - multiset{x} - multiset{y}
  {
  }

  lemma JoinCost(w: seq<nat>, l: seq<nat>, a: nat, b: nat)
    requires |w| == |l| && a < b < |w| && l[a] == l[b] > 0
    ensures
      var w2, l2 := Without(Without(w, b), a), Without(Without(l, b), a);
      Cost(w, l) == Cost(w2 + [w[a] + w[b]], l2 + [l[a] - 1]) + w[a] + w[b]
  {
    hide *;
    var k: nat := l[a] - 1;
    WithoutAt(w, b, a);
    WithoutAt(l, b, a);
    CostWithout(w, l, b);
    CostWithout(Without(w, b), Without(l, b), a);
    CostPush(Without(Without(w, b), a), Without(Without(l, b), a), w[a] + w[b], k);
    OneLess(w[a], w[b], k);
  }

  lemma WithoutAt<T>(s: seq<T>, i: nat, j: nat)
    requires j < i < |s|
    ensures Without(s, i)[j] == s[j]
  {
  }

  lemma OneLess(x: nat, y: nat, k: nat)
    ensures (x + y) * k + x + y == x * (k + 1) + y * (k + 1)
  {
  }

  lemma JoinKraft(l: seq<nat>, m: nat, a: nat, b: nat)
    requires Fits(l, m) && a < b < |l| && l[a] == l[b] > 0
    ensures Fits(Without(Without(l, b), a) + [l[a] - 1], m)
  {
    hide Kraft;
    KraftWithout(l, m, b);
    KraftWithout(Without(l, b), m, a);
    KraftPush(Without(Without(l, b), a), m, l[a] - 1);
    assert Pow2(m - (l[a] - 1)) == 2 * Pow2(m - l[a]);
  }

  /** Huffman's cost is a lower bound for every prefix code. */
  lemma {:induction false} HuffmanIsMinimal(w: seq<nat>, l: seq<nat>, m: nat)
    requires |w| == |l| && Fits(l, m)
    ensures HuffmanCost(multiset(w)) <= Cost(w, l)
    decreases |w|
  {
    if |w| >= 2 {
      hide Cost, Kraft, HuffmanCost, Fits, Merged, IsMin;
      var ms := multiset(w);
      var i, j := TwoSmallest(w);
      assert AtMost(l, m) by { FitsAtMost(l, m); }
      var l1 := GiveLongest(w, l, m, i, |w|, m);
      var l2 := GiveLongest(w, l1, m, j, i, l1[i]);
      assert l2[i] == l1[i] && l2[j] <= l2[i];
      SomeLength(l2, m, i, j);
      var l3 := ShortenTo(w, l2, m, i, l2[j]);
      var a, b := if i < j then i else j, if i < j then j else i;
      var w', l' := Join(w, l3, m, a, b);
      HuffmanStep(ms, w[i], w[j]);
      MergedEither(ms, w[a], w[b]);
      HuffmanIsMinimal(w', l', m);
    }
  }

  lemma MergedEither(ms: multiset<nat>, x: nat, y: nat)
    ensures Merged(ms, x, y) == Merged(ms, y, x)
  {
  }

  lemma FitsAtMost(l: seq<nat>, m: nat)
    requires Fits(l, m)
    ensures AtMost(l, m)
  {
  }

  lemma {:induction false} Smallest(w: seq<nat>, skip: nat) returns (i: nat)
    requires |w| >= 2 || (|w| == 1 && skip != 0)
    ensures i < |w| && i != skip && forall k :: 0 <= k < |w| && k != skip ==> w[i] <= w[k]
  {
    var n := |w| - 1;
    if n >= 2 || (n == 1 && skip != 0) {
      i := Smallest(w[..n], skip);
      if n != skip && w[n] < w[i] { i := n; }
    } else {
      i := n;
    }
  }

  lemma TwoSmallest(w: seq<nat>) returns (i: nat, j: nat)
    requires |w| >= 2
    ensures i < |w| && j < |w| && i != j && IsMin(multiset(w), w[i]) && IsMin(Minus(multiset(w), w[i]), w[j])
    ensures forall k :: 0 <= k < |w| ==> w[i] <= w[k]
    ensures forall k :: 0 <= k < |w| && k != i ==> w[j] <= w[k]
  {
    hide *;
    i := Smallest(w, |w|);
    j := Smallest(w, i);
    LeastIsMin(w, i);
    LeastOfRest(w, i, j);
  }

  lemma LeastOfRest(w: seq<nat>, i: nat, j: nat)
    requires i < |w| && j < |w| && i != j && forall k :: 0 <= k < |w| && k != i ==> w[j] <= w[k]
    ensures IsMin(Minus(multiset(w), w[i]), w[j])
  {
    hide IsMin;
    MultisetWithout(w, i);
    var rest := Without(w, i);
    var k := if j < i then j else j - 1;
    forall h | 0 <= h < |rest| ensures rest[h] == w[if h < i then h else h + 1] {}
    LeastIsMin(rest, k);
  }

  lemma LeastIsMin(w: seq<nat>, i: nat)
    requires i < |w| && forall k :: 0 <= k < |w| ==> w[i] <= w[k]
    ensures IsMin(multiset(w), w[i])
  {
    forall y | y in multiset(w) ensures w[i] <= y { assert y in w; }
  }

  /** Of two symbols neither can have the empty code. */
  lemma SomeLength(l: seq<nat>, m: nat, i: nat, j: nat)
    requires Fits(l, m) && i < |l| && j < |l| && i != j
    ensures l[i] > 0 && l[j] > 0
  {
    hide Kraft;
    var rest := Without(l, i);
    var k := if j < i then j else j - 1;
    assert rest[k] == l[j];
    KraftWithout(l, m, i);
    KraftWithout(rest, m, k);
  }
}
