/** How long the codes of a minimum-redundancy code can get (compositor/jpge.cpp:219-221). */
module JpegFibonacci {
  import opened Bits
  import opened Canonical
  import opened JpegMinimum
  import opened JpegMoffat
  import opened JpegDepths

  function Fib(n: nat): nat { if n < 2 then n else Fib(n - 1) + Fib(n - 2) }

  // ---- Sums over parts ----

  lemma {:induction false} KraftJoin(a: seq<nat>, b: seq<nat>, m: nat)
    requires AtMost(a, m) && AtMost(b, m)
    ensures AtMost(a + b, m) && Kraft(a + b, m) == Kraft(a, m) + Kraft(b, m)
    decreases |b|
  {
    if b == [] {
      assert a + b == a;
    } else {
      assert (a + b)[..|a + b| - 1] == a + b[..|b| - 1];
      KraftJoin(a, b[..|b| - 1], m);
    }
  }

  lemma {:induction false} CostJoin(v: seq<nat>, a: seq<nat>, w: seq<nat>, b: seq<nat>)
    requires |v| == |a| && |w| == |b|
    ensures Cost(v + w, a + b) == Cost(v, a) + Cost(w, b)
    decreases |b|
  {
    if b == [] {
      assert a + b == a && v + w == v;
    } else {
      assert (a + b)[..|a + b| - 1] == a + b[..|b| - 1] && (v + w)[..|v + w| - 1] == v + w[..|w| - 1];
      CostJoin(v, a, w[..|w| - 1], b[..|b| - 1]);
    }
  }

  lemma {:induction false} SumJoin(a: seq<nat>, b: seq<nat>)
    ensures Sum(a + b) == Sum(a) + Sum(b)
    decreases |b|
  {
    if b == [] {
      assert a + b == a;
    } else {
      assert (a + b)[..|a + b| - 1] == a + b[..|b| - 1];
      SumJoin(a, b[..|b| - 1]);
    }
  }

  /** All lengths one more, or one less. */
  function Longer(l: seq<nat>): (r: seq<nat>)
    ensures |r| == |l| && forall i :: 0 <= i < |l| ==> r[i] == l[i] + 1
  {
    seq(|l|, i requires 0 <= i < |l| => l[i] + 1)
  }

  function Shorter(l: seq<nat>): (r: seq<nat>)
    requires forall i :: 0 <= i < |l| ==> l[i] >= 1
    ensures |r| == |l| && forall i :: 0 <= i < |l| ==> r[i] == l[i] - 1
  {
    seq(|l|, i requires 0 <= i < |l| => l[i] - 1)
  }

  lemma {:induction false} LongerSums(w: seq<nat>, l: seq<nat>, m: nat)
    requires AtMost(l, m) && |w| == |l|
    ensures AtMost(Longer(l), m + 1) && Kraft(Longer(l), m + 1) == Kraft(l, m) && Cost(w, Longer(l)) == Cost(w, l) + Sum(w)
  {
    hide Cost, Kraft, Sum, Pow2;
    if l != [] {
      var n := |l| - 1;
      var front, u := l[..n], w[..n];
      LongerSums(u, front, m);
      KraftPush(front, m, l[n]);
      KraftPush(Longer(front), m + 1, l[n] + 1);
      CostPush(u, front, w[n], l[n]);
      CostPush(u, Longer(front), w[n], l[n] + 1);
      SumPush(u, w[n]);
      assert l == front + [l[n]] && w == u + [w[n]] && Longer(l) == Longer(front) + [l[n] + 1];
      OneTimesMore(w[n], l[n]);
    } else {
      NoSums(w, l, Longer(l), m);
    }
  }

  lemma OneTimesMore(x: nat, k: nat)
    ensures x * (k + 1) == x * k + x
  {
  }

  lemma NoSums(w: seq<nat>, l: seq<nat>, k: seq<nat>, m: nat)
    requires w == [] && l == [] && k == []
    ensures Kraft(k, m + 1) == Kraft(l, m) && Cost(w, k) == Cost(w, l) + Sum(w)
  {
  }

  lemma {:induction false} ShorterSums(w: seq<nat>, l: seq<nat>, m: nat)
    requires AtMost(l, m) && |w| == |l| && forall i :: 0 <= i < |l| ==> l[i] >= 1
    ensures AtMost(Shorter(l), m + 1) && Kraft(Shorter(l), m + 1) == 4 * Kraft(l, m) && Cost(w, Shorter(l)) + Sum(w) == Cost(w, l)
  {
    hide Pow2;
    if l != [] {
      var n := |l| - 1;
      assert Shorter(l)[..n] == Shorter(l[..n]);
      ShorterSums(w[..n], l[..n], m);
      FourTimes(m, l[n]);
      OneLess(w[n], l[n]);
    }
  }

  lemma FourTimes(m: nat, k: nat)
    requires 1 <= k <= m
    ensures Pow2(m + 1 - (k - 1)) == 4 * Pow2(m - k)
  {
    assert Pow2(m + 2 - k) == 2 * Pow2(m + 1 - k);
  }

  lemma OneLess(w: nat, k: nat)
    requires k >= 1
    ensures w * (k - 1) + w == w * k
  {
  }

  lemma {:induction false} KraftDouble(l: seq<nat>, m: nat)
    requires AtMost(l, m)
    ensures AtMost(l, m + 1) && Kraft(l, m + 1) == 2 * Kraft(l, m)
  {
    if l != [] { KraftDouble(l[..|l| - 1], m); }
  }

  // ---- Parts of a descending complete code ----

  /** The first n lengths fill 2^-i of the code space. */
  ghost predicate Cut(l: seq<nat>, m: nat, i: nat, n: nat) {
    n <= |l| && i <= m && AtMost(l[..n], m) && Kraft(l[..n], m) == Pow2(m - i) && forall k :: 0 <= k < n ==> l[k] >= i
  }

  /** In a complete code of descending lengths the sum before k is a multiple of the share of length l[k]. */
  lemma PrefixMultiple(l: seq<nat>, m: nat, k: nat) returns (q: nat)
    requires AtMost(l, m) && Descending(l) && Kraft(l, m) == Pow2(m) && k < |l|
    ensures AtMost(l[..k], m) && Kraft(l[..k], m) == q * Pow2(m - l[k])
  {
    hide Kraft, Pow2;
    var a, b := l[..k], l[k..];
    assert l == a + b;
    KraftJoin(a, b, m);
    assert AtMost(b, l[k]);
    KraftMultiple(b, m, l[k]);
    Pow2Add(l[k], m - l[k]);
    q := Quotient(Kraft(b, m), Pow2(m - l[k]), Pow2(l[k]), Kraft(a, m));
  }

  lemma Quotient(b: nat, p: nat, whole: nat, a: nat) returns (q: nat)
    requires p > 0 && b % p == 0 && a + b == whole * p
    ensures a == q * p
  {
    var c := b / p;
    assert b == c * p;
    CancelMul(c, whole, p);
    assert (whole - c) * p == a;
    q := whole - c;
  }

  /** The next cut: from 2^-(i+1) on to 2^-i. */
  lemma {:induction false} NextCut(l: seq<nat>, m: nat, i: nat, k: nat) returns (n: nat)
    requires AtMost(l, m) && Descending(l) && Kraft(l, m) == Pow2(m) && i < m
    requires 0 < k <= |l| && AtMost(l[..k], m) && 0 < Kraft(l[..k], m) <= Pow2(m - i) && forall h :: 0 <= h < k ==> l[h] >= i
    ensures k <= n && Cut(l, m, i, n)
    decreases |l| - k
  {
    hide Kraft, Pow2;
    if Kraft(l[..k], m) == Pow2(m - i) {
      n := k;
    } else {
      if k == |l| {
        assert l[..k] == l;
        Pow2Monotone(m - i, m);
        assert false;
      }
      var q := PrefixMultiple(l, m, k);
      StillRoom(q, m, i, l[k]);
      assert l[..k + 1] == l[..k] + [l[k]];
      KraftJoin(l[..k], [l[k]], m);
      OneTerm(l[k], m);
      n := NextCut(l, m, i, k + 1);
    }
  }

  lemma OneTerm(k: nat, m: nat)
    requires k <= m
    ensures Kraft([k], m) == Pow2(m - k)
  {
    assert [k][..0] == [];
  }

  lemma NoSmallMultiple(q: nat, p: nat)
    ensures q * p > 0 ==> q * p >= p
  {
    if q > 0 { MulAtLeast(q, p); }
  }

  /** A sum below 2^-i that is a multiple of 2^-k has room for another 2^-k, and k is at least i. */
  lemma StillRoom(q: nat, m: nat, i: nat, k: nat)
    requires k <= m && i <= m && 0 < q * Pow2(m - k) < Pow2(m - i)
    ensures k >= i && q * Pow2(m - k) + Pow2(m - k) <= Pow2(m - i)
  {
    hide Pow2;
    NoSmallMultiple(q, Pow2(m - k));
    if k < i {
      Pow2Monotone(m - i, m - k);
      assert false;
    }
    Pow2Add(k - i, m - k);
    CancelMulStrict(q, Pow2(k - i), Pow2(m - k));
    MulMonotone(q + 1, Pow2(k - i), Pow2(m - k));
    TimesPlusOne(q, Pow2(m - k));
  }

  // ---- Exchanging parts ----

  /** The sums of four parts in a row. */
  lemma FourParts(w: seq<nat>, l: seq<nat>, m: nat, a: nat, b: nat, c: nat)
    requires |w| == |l| && AtMost(l, m) && a <= b <= c <= |l|
    ensures AtMost(l[..a], m) && AtMost(l[a..b], m) && AtMost(l[b..c], m) && AtMost(l[c..], m)
    ensures Kraft(l, m) == Kraft(l[..a], m) + Kraft(l[a..b], m) + Kraft(l[b..c], m) + Kraft(l[c..], m)
    ensures Cost(w, l) == Cost(w[..a], l[..a]) + Cost(w[a..b], l[a..b]) + Cost(w[b..c], l[b..c]) + Cost(w[c..], l[c..])
    ensures AtMost(l[..b], m) && Kraft(l[..b], m) == Kraft(l[..a], m) + Kraft(l[a..b], m)
    ensures AtMost(l[..c], m) && Kraft(l[..c], m) == Kraft(l[..b], m) + Kraft(l[b..c], m)
  {
    hide Kraft, Cost;
    assert l[..b] == l[..a] + l[a..b] && w[..b] == w[..a] + w[a..b];
    assert l[..c] == l[..b] + l[b..c] && w[..c] == w[..b] + w[b..c];
    assert l == l[..c] + l[c..] && w == w[..c] + w[c..];
    KraftJoin(l[..a], l[a..b], m);
    KraftJoin(l[..b], l[b..c], m);
    KraftJoin(l[..c], l[c..], m);
    CostJoin(w[..a], l[..a], w[a..b], l[a..b]);
    CostJoin(w[..b], l[..b], w[b..c], l[b..c]);
    CostJoin(w[..c], l[..c], w[c..], l[c..]);
  }

  /** The symbols before a move up, those from b to c move down. */
  function Moved(l: seq<nat>, a: nat, b: nat, c: nat): (r: seq<nat>)
    requires a <= b <= c <= |l| && forall i :: 0 <= i < a ==> l[i] >= 1
    ensures |r| == |l|
  {
    Shorter(l[..a]) + l[a..b] + Longer(l[b..c]) + l[c..]
  }

  lemma MovedParts(l: seq<nat>, a: nat, b: nat, c: nat, m: nat)
    requires a <= b <= c <= |l| && AtMost(l, m) && forall i :: 0 <= i < a ==> l[i] >= 1
    ensures
      var r := Moved(l, a, b, c);
      && r[..a] == Shorter(l[..a]) && r[a..b] == l[a..b] && r[b..c] == Longer(l[b..c]) && r[c..] == l[c..] && AtMost(r, m + 1)
  {
  }

  lemma MovedSums(w: seq<nat>, l: seq<nat>, m: nat, a: nat, b: nat, c: nat)
    requires |w| == |l| && AtMost(l, m) && a <= b <= c <= |l| && forall i :: 0 <= i < a ==> l[i] >= 1
    ensures
      var r := Moved(l, a, b, c);
      && AtMost(r, m + 1) && AtMost(l[..a], m) && AtMost(l[a..b], m) && AtMost(l[b..c], m) && AtMost(l[c..], m)
      && Kraft(r, m + 1) == 4 * Kraft(l[..a], m) + 2 * Kraft(l[a..b], m) + Kraft(l[b..c], m) + 2 * Kraft(l[c..], m)
      && Cost(w, r) + Sum(w[..a]) == Cost(w, l) + Sum(w[b..c])
  {
    hide Kraft, Cost, Sum, Moved, AtMost;
    var r := Moved(l, a, b, c);
    MovedParts(l, a, b, c, m);
    FourParts(w, l, m, a, b, c);
    FourParts(w, r, m + 1, a, b, c);
    ShorterSums(w[..a], l[..a], m);
    LongerSums(w[b..c], l[b..c], m);
    KraftDouble(l[a..b], m);
    KraftDouble(l[c..], m);
  }

  /** What fills 2^-i of the code space behind the first 2^-i weighs at least as much as the first 2^-(i+1). */
  lemma Exchange(w: seq<nat>, l: seq<nat>, i: nat, a: nat, b: nat, c: nat)
    requires MinimumRedundancy(w, l) && 1 <= i < |l|
    requires Cut(l, |l|, i + 1, a) && Cut(l, |l|, i, b) && Cut(l, |l|, i - 1, c) && a <= b <= c
    ensures Sum(w[..a]) <= Sum(w[b..c])
  {
    hide Kraft, Cost, Sum, HuffmanCost, Pow2;
    var m := |l|;
    FourParts(w, l, m, a, b, c);
    MovedSums(w, l, m, a, b, c);
    Halves(m, i);
    var r := Moved(l, a, b, c);
    assert Fits(r, m + 1);
  }

  lemma Halves(m: nat, i: nat)
    requires 1 <= i < m
    ensures Pow2(m - i) == 2 * Pow2(m - (i + 1)) && Pow2(m - (i - 1)) == 2 * Pow2(m - i) && Pow2(m + 1) == 2 * Pow2(m)
  {
  }

  // ---- The bound ----

  lemma {:induction false} AtLeastCount(w: seq<nat>)
    requires forall i :: 0 <= i < |w| ==> w[i] >= 1
    ensures Sum(w) >= |w|
  {
    if w != [] { AtLeastCount(w[..|w| - 1]); }
  }

  /** The parts that fill 2^-(i+1) and 2^-i of the code space weigh at least two successive Fibonacci numbers. */
  lemma {:induction false} PartsGrow(w: seq<nat>, l: seq<nat>, i: nat) returns (a: nat, b: nat)
    requires MinimumRedundancy(w, l) && (forall k :: 0 <= k < |w| ==> w[k] >= 1) && |l| >= 2 && i < l[0]
    ensures Cut(l, |l|, i + 1, a) && Cut(l, |l|, i, b) && a <= b
    ensures Sum(w[..a]) >= Fib(l[0] - i + 1) && Sum(w[..b]) >= Fib(l[0] - i + 2)
    decreases l[0] - i
  {
    hide Kraft, Cost, Sum, HuffmanCost, Pow2, MinimumRedundancy, Cut, Fib;
    var m := |l|;
    CodeParts(w, l);
    FibNext(l[0] - i);
    if i + 1 == l[0] {
      assert l[..1] == [l[0]];
      OneTerm(l[0], m);
      a := NextCut(l, m, i + 1, 1);
      CutParts(l, m, i + 1, a);
      b := NextCut(l, m, i, a);
      CutParts(l, m, i, b);
      assert a != b;
      AtLeastCount(w[..a]);
      AtLeastCount(w[..b]);
    } else {
      var a';
      a', a := PartsGrow(w, l, i + 1);
      CutParts(l, m, i + 1, a);
      b := NextCut(l, m, i, a);
      CutParts(l, m, i, b);
      CutParts(l, m, i + 2, a');
      Exchange(w, l, i + 1, a', a, b);
      assert w[..b] == w[..a] + w[a..b];
      SumJoin(w[..a], w[a..b]);
    }
  }

  lemma CodeParts(w: seq<nat>, l: seq<nat>)
    requires MinimumRedundancy(w, l)
    ensures |w| == |l| && AtMost(l, |l|) && Descending(l) && Kraft(l, |l|) == Pow2(|l|) && forall i :: 0 <= i < |l| ==> l[i] < |l|
  {
    hide Kraft, Cost, HuffmanCost, Fits;
  }

  lemma FibNext(n: nat)
    ensures Fib(2) == 1 && Fib(3) == 2 && Fib(n + 2) == Fib(n + 1) + Fib(n)
  {
  }

  /** What the next cut starts from. */
  lemma CutParts(l: seq<nat>, m: nat, i: nat, n: nat)
    requires Cut(l, m, i, n)
    ensures n <= |l| && i <= m && AtMost(l[..n], m) && Kraft(l[..n], m) == Pow2(m - i) > 0 && n > 0
    ensures forall k :: 0 <= k < n ==> l[k] >= i
    ensures i >= 1 ==> Pow2(m - i) < Pow2(m - (i - 1))
  {
  }

  /** A code length of L needs weights of at least Fib(L + 2) together. */
  lemma LongCodeIsHeavy(w: seq<nat>, l: seq<nat>)
    requires MinimumRedundancy(w, l) && |l| >= 2 && forall k :: 0 <= k < |w| ==> w[k] >= 1
    ensures Sum(w) >= Fib(l[0] + 2)
  {
    hide Kraft, Cost, Sum, HuffmanCost, Pow2, MinimumRedundancy, Cut, Fib;
    CodeParts(w, l);
    Lengths(w, l);
    var a, b := PartsGrow(w, l, 0);
    CutParts(l, |l|, 0, b);
    assert w == w[..b] + w[b..];
    SumJoin(w[..b], w[b..]);
  }

  lemma Lengths(w: seq<nat>, l: seq<nat>)
    requires MinimumRedundancy(w, l)
    ensures forall i :: 0 <= i < |l| ==> l[i] >= 1
  {
    hide Kraft, Cost, HuffmanCost, Fits;
  }

  lemma {:induction false} FibMonotone(a: nat, b: nat)
    requires a <= b
    ensures Fib(a) <= Fib(b)
  {
    if a < b { FibMonotone(a, b - 1); }
  }

  lemma FibAt35()
    ensures Fib(35) == 9227465
  {
    assert Fib(6) == 8 && Fib(7) == 13;
    assert Fib(10) == 55 && Fib(11) == 89;
    assert Fib(14) == 377 && Fib(15) == 610;
    assert Fib(18) == 2584 && Fib(19) == 4181;
    assert Fib(22) == 17711 && Fib(23) == 28657;
    assert Fib(26) == 121393 && Fib(27) == 196418;
    assert Fib(30) == 832040 && Fib(31) == 1346269;
    assert Fib(34) == 5702887 && Fib(35) == 9227465;
  }

  /** Weights of less than Fib(35) together have no code of more than 32 bits. */
  lemma NoLongCode(w: seq<nat>, l: seq<nat>)
    requires MinimumRedundancy(w, l) && |l| >= 2 && (forall k :: 0 <= k < |w| ==> w[k] >= 1) && Sum(w) < 9227465
    ensures AtMost(l, 32)
  {
    hide Kraft, Cost, Sum, HuffmanCost, Pow2, MinimumRedundancy, Fib;
    LongCodeIsHeavy(w, l);
    CodeParts(w, l);
    FibAt35();
    if l[0] > 32 {
      FibMonotone(35, l[0] + 2);
    }
  }
}
