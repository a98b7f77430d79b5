/** Weights so steep that every minimum-redundancy code is a chain (compositor/jpge.cpp:163-182, 219-221). */
module JpegLongCodes {
  import opened Bits
  import opened Canonical
  import opened JpegMinimum
  import opened JpegMoffat
  import opened JpegDepths
  import opened JpegFibonacci

  /** From the fourth on every weight exceeds the sum of all before its predecessor. */
  ghost predicate Steep(w: seq<nat>) {
    Sorted(w) && forall k :: 3 <= k < |w| ==> Sum(w[..k - 1]) < w[k]
  }

  /** A complete code, longest codes first, that no other code beats. */
  ghost predicate Optimal(w: seq<nat>, l: seq<nat>, m: nat) {
    && |w| == |l| && Descending(l) && AtMost(l, m) && Kraft(l, m) == Pow2(m)
    && forall other: seq<nat>, m': nat {:trigger Fits(other, m')} :: |other| == |w| && Fits(other, m') ==> Cost(w, l) <= Cost(w, other)
  }

  lemma PushSums(w: seq<nat>, l: seq<nat>, x: nat, k: nat, m: nat)
    requires |w| == |l| && AtMost(l, m) && k <= m
    ensures AtMost(l + [k], m) && Kraft(l + [k], m) == Kraft(l, m) + Pow2(m - k)
    ensures Cost(w + [x], l + [k]) == Cost(w, l) + x * k
  {
    hide Kraft, Cost;
    CostPush(w, l, x, k);
    KraftPush(l, m, k);
  }

  /** The heaviest symbol does not have a code of three bits or more: one bit would be better. */
  lemma NotThree(w: seq<nat>, l: seq<nat>, m: nat)
    requires Steep(w) && Optimal(w, l, m) && |w| >= 4
    ensures l[|l| - 1] <= 2
  {
    hide Kraft, Cost, Sum, Pow2, Sorted, Descending;
    var n := |w| - 1;
    var front, rest, s := w[..n], l[..n], l[n];
    assert w == front + [w[n]] && l == rest + [s];
    PushSums(front, rest, w[n], s, m);
    LongerSums(front, rest, m);
    PushSums(front, Longer(rest), w[n], 1, m + 1);
    assert Pow2(m + 1 - 1) == Pow2(m) && Pow2(m + 1) == 2 * Pow2(m) by { NextPower(m); }
    assert Fits(Longer(rest) + [1], m + 1);
    assert front == w[..n - 1] + [w[n - 1]];
    SumPush(w[..n - 1], w[n - 1]);
    LastTwo(w, n);
    TwoTimes(w[n], s);
  }

  lemma NextPower(m: nat)
    ensures Pow2(m + 1) == 2 * Pow2(m)
  {
  }

  lemma LastTwo(w: seq<nat>, n: nat)
    requires Steep(w) && n == |w| - 1 >= 3
    ensures w[n - 1] <= w[n] && Sum(w[..n - 1]) < w[n]
  {
  }

  lemma TwoTimes(x: nat, s: nat)
    ensures s >= 3 ==> x * s >= 3 * x
  {
    if s >= 3 { assert x * s == x * (s - 3) + 3 * x; }
  }

  /** Nor one of two bits: it could change places with half of the code space that weighs less. */
  lemma NotTwo(w: seq<nat>, l: seq<nat>, m: nat)
    requires Steep(w) && Optimal(w, l, m) && |w| >= 4
    ensures l[|l| - 1] != 2
  {
    hide Kraft, Cost, Pow2, Sorted, Optimal, Steep;
    var n := |w| - 1;
    OptimalParts(w, l, m);
    if l[n] == 2 {
      var b := Half(w, l, m);
      var moved := MoveHalf(w, l, m, b);
      LastTwo(w, n);
      SumPart(w, b, n - 1);
      StillOptimal(w, l, m, moved, m + 1);
      assert false;
    }
  }

  lemma OptimalParts(w: seq<nat>, l: seq<nat>, m: nat)
    requires Optimal(w, l, m)
    ensures |w| == |l| && Descending(l) && AtMost(l, m) && Kraft(l, m) == Pow2(m)
    ensures |l| >= 2 ==> forall i :: 0 <= i < |l| ==> l[i] >= 1
  {
    hide Kraft, Cost, Pow2, Descending;
    if |l| >= 2 {
      forall i | 0 <= i < |l| ensures l[i] >= 1 { SomeLength(l, m, i, if i == 0 then 1 else 0); }
    }
  }

  lemma StillOptimal(w: seq<nat>, l: seq<nat>, m: nat, other: seq<nat>, m': nat)
    requires Optimal(w, l, m) && |other| == |w| && Fits(other, m')
    ensures Cost(w, l) <= Cost(w, other)
  {
  }

  lemma {:induction false} SumPart(w: seq<nat>, a: nat, b: nat)
    requires a <= b <= |w|
    ensures Sum(w[..a]) <= Sum(w[..b])
  {
    if a < b {
      SumPart(w, a, b - 1);
      assert w[..b] == w[..b - 1] + [w[b - 1]];
      SumPush(w[..b - 1], w[b - 1]);
    }
  }

  /** The first symbols that fill half of the code space, if the last code has two bits. */
  lemma Half(w: seq<nat>, l: seq<nat>, m: nat) returns (b: nat)
    requires Optimal(w, l, m) && |l| >= 4 && l[|l| - 1] == 2
    ensures Cut(l, m, 1, b) && b < |l| - 1
  {
    hide Kraft, Cost, Pow2, Optimal, Descending;
    OptimalParts(w, l, m);
    assert l[..1] == [l[0]];
    OneTerm(l[0], m);
    Pow2Monotone(m - l[0], m - 1);
    b := NextCut(l, m, 1, 1);
    CutParts(l, m, 1, b);
    var n := |l| - 1;
    Quarters(m);
    assert l[..|l|] == l;
    if b == n {
      assert l == l[..n] + [2];
      KraftPush(l[..n], m, 2);
    }
  }

  lemma Quarters(m: nat)
    requires m >= 2
    ensures Pow2(m) == 2 * Pow2(m - 1) && Pow2(m - 1) == 2 * Pow2(m - 2) && Pow2(m + 1) == 2 * Pow2(m) && Pow2(m - 2) > 0
  {
  }

  /** That half one bit longer, the last code one bit shorter. */
  lemma MoveHalf(w: seq<nat>, l: seq<nat>, m: nat, b: nat) returns (r: seq<nat>)
    requires |w| == |l| && AtMost(l, m) && Kraft(l, m) == Pow2(m) && |l| >= 4 && l[|l| - 1] == 2 && Cut(l, m, 1, b) && b < |l| - 1
    ensures |r| == |w| && Fits(r, m + 1) && Cost(w, r) + w[|w| - 1] == Cost(w, l) + Sum(w[..b])
  {
    hide Kraft, Cost, Pow2, Sum;
    var n := |l| - 1;
    var a, c := l[..b], l[b..n];
    assert l == a + c + [2] && w == w[..b] + w[b..n] + [w[n]];
    assert AtMost(a, m) && AtMost(c, m);
    KraftJoin(a, c, m);
    CostJoin(w[..b], a, w[b..n], c);
    PushSums(w[..b] + w[b..n], a + c, w[n], 2, m);
    LongerSums(w[..b], a, m);
    KraftDouble(c, m);
    KraftJoin(Longer(a), c, m + 1);
    CostJoin(w[..b], Longer(a), w[b..n], c);
    PushSums(w[..b] + w[b..n], Longer(a) + c, w[n], 1, m + 1);
    Quarters(m);
    r := Longer(a) + c + [1];
  }

  /** Without its heaviest symbol the code is a code of the others, one bit longer, that cannot be beaten either. */
  lemma RestOptimal(w: seq<nat>, l: seq<nat>, m: nat)
    requires Optimal(w, l, m) && |l| >= 4 && l[|l| - 1] == 1
    ensures
      var n := |l| - 1;
      (forall i :: 0 <= i < n ==> l[i] >= 1) && Optimal(w[..n], Shorter(l[..n]), m + 1)
  {
    hide Kraft, Cost, Pow2, Sum;
    OptimalParts(w, l, m);
    var n := |l| - 1;
    var front, rest := w[..n], l[..n];
    assert w == front + [w[n]] && l == rest + [1];
    PushSums(front, rest, w[n], 1, m);
    ShorterSums(front, rest, m);
    assert Pow2(m) == 2 * Pow2(m - 1) && Pow2(m + 1) == 2 * Pow2(m) by { NextPower(m - 1); NextPower(m); }
    forall other: seq<nat>, m': nat | |other| == n && Fits(other, m')
      ensures Cost(front, Shorter(rest)) <= Cost(front, other)
    {
      LongerSums(front, other, m');
      PushSums(front, Longer(other), w[n], 1, m' + 1);
      assert Pow2(m' + 1 - 1) == Pow2(m') && Pow2(m' + 1) == 2 * Pow2(m') by { NextPower(m'); }
      assert Fits(Longer(other) + [1], m' + 1);
    }
  }

  /** Complete codes of two or three symbols have no choice. */
  lemma FewSymbols(l: seq<nat>, m: nat)
    requires 2 <= |l| <= 3 && Descending(l) && AtMost(l, m) && Kraft(l, m) == Pow2(m) && forall i :: 0 <= i < |l| ==> l[i] >= 1
    ensures l[0] == |l| - 1
  {
    hide Pow2, Kraft;
    KraftOfFew(l, m);
    if |l| == 2 { TwoLengths(l[0], l[1], m); } else { ThreeLengths(l[0], l[1], l[2], m); }
  }

  lemma TwoLengths(a: nat, b: nat, m: nat)
    requires 1 <= b <= a <= m && Pow2(m - a) + Pow2(m - b) == Pow2(m)
    ensures a == 1
  {
    hide Pow2;
    if a >= 2 {
      Pow2Monotone(m - a, m - 2);
      Pow2Monotone(m - b, m - 1);
      Quarters(m);
      assert false;
    }
  }

  lemma KraftOfFew(l: seq<nat>, m: nat)
    requires 2 <= |l| <= 3 && AtMost(l, m)
    ensures Kraft(l, m) == Pow2(m - l[0]) + Pow2(m - l[1]) + if |l| == 3 then Pow2(m - l[2]) else 0
  {
    hide Pow2, Kraft;
    OneTerm(l[0], m);
    KraftPush([l[0]], m, l[1]);
    if |l| == 3 {
      assert l == [l[0]] + [l[1]] + [l[2]];
      KraftPush([l[0]] + [l[1]], m, l[2]);
    } else {
      assert l == [l[0]] + [l[1]];
    }
  }

  lemma ThreeLengths(a: nat, b: nat, c: nat, m: nat)
    requires 1 <= c <= b <= a <= m && Pow2(m - a) + Pow2(m - b) + Pow2(m - c) == Pow2(m)
    ensures a == 2
  {
    hide Pow2;
    NextPower(m - 1);
    if a == 1 {
      assert false;
    } else {
      Quarters(m);
      if c >= 2 {
        Pow2Monotone(m - a, m - 2);
        Pow2Monotone(m - b, m - 2);
        Pow2Monotone(m - c, m - 2);
        assert false;
      }
      if b == 1 { assert false; }
      if a >= 3 {
        Pow2Monotone(m - a, m - 3);
        Pow2Monotone(m - b, m - 2);
        NextPower(m - 3);
        assert false;
      }
    }
  }

  /** Steep weights get a chain: the longest code is as long as it can be. */
  lemma {:induction false} ChainLengths(w: seq<nat>, l: seq<nat>, m: nat)
    requires Steep(w) && Optimal(w, l, m) && |w| >= 2
    ensures l[0] == |w| - 1
    decreases |w|
  {
    hide Kraft, Cost, Pow2, Sum, Optimal, Steep;
    OptimalParts(w, l, m);
    if |w| <= 3 {
      FewSymbols(l, m);
    } else {
      var n := |w| - 1;
      NotThree(w, l, m);
      NotTwo(w, l, m);
      RestOptimal(w, l, m);
      SteepFront(w, n);
      ChainLengths(w[..n], Shorter(l[..n]), m + 1);
    }
  }

  lemma SteepFront(w: seq<nat>, n: nat)
    requires Steep(w) && n <= |w|
    ensures Steep(w[..n])
  {
    hide Sum;
    forall k | 3 <= k < n ensures Sum(w[..n][..k - 1]) < w[..n][k] { assert w[..n][..k - 1] == w[..k - 1]; }
  }

  /** Steep weights have a code as long as there are weights, less one, in every minimum-redundancy code. */
  lemma SteepIsLong(w: seq<nat>, l: seq<nat>)
    requires Steep(w) && MinimumRedundancy(w, l) && |w| >= 2
    ensures l[0] == |w| - 1
  {
    hide Kraft, Cost, Pow2, Steep, HuffmanCost;
    ChainLengths(w, l, |l|);
  }

  // ---- A sequence of steep weights ----

  /** 1, 1, 1, 3, 4, 7, 11, 18 and so on. */
  function LongKey(i: nat): (k: nat)
    ensures k >= 1
  {
    if i < 3 then 1 else if i == 3 then 3 else if i == 4 then 4 else LongKey(i - 1) + LongKey(i - 2)
  }

  ghost predicate LongKeys(w: seq<nat>) { forall i: nat :: i < |w| ==> w[i] == LongKey(i) }

  lemma {:induction false} LongKeySum(w: seq<nat>, k: nat)
    requires LongKeys(w) && 3 <= k <= |w| + 1
    ensures Sum(w[..k - 1]) + 1 == LongKey(k)
  {
    if k == 3 {
      assert w[..2] == [1, 1];
      assert [1, 1][..1] == [1] && [1][..0] == [];
    } else {
      LongKeySum(w, k - 1);
      assert w[..k - 1] == w[..k - 2] + [w[k - 2]];
      SumPush(w[..k - 2], w[k - 2]);
    }
  }

  lemma {:induction false} LongKeyMonotone(i: nat, j: nat)
    requires i <= j
    ensures LongKey(i) <= LongKey(j)
  {
    if i < j { LongKeyMonotone(i, j - 1); }
  }
}
