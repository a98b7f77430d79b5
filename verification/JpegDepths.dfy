/** The second and third phase of the in-place algorithm: depths of the nodes, then of the leaves (compositor/jpge.cpp:172-181). */
module JpegDepths {
  import opened Bits
  import opened Canonical
  import opened JpegMinimum
  import opened JpegMoffat
  import opened JpegHeight
  import opened JpegBuild

  ghost predicate Upward(P: seq<nat>) { Sorted(P) && forall i :: 0 <= i < |P| ==> i < P[i] <= |P| }

  /** How far a node is from the root, which is node |P|. */
  ghost function Depth(P: seq<nat>, i: nat): nat
    requires Upward(P) && i <= |P|
    decreases |P| - i
  {
    if i == |P| then 0 else 1 + Depth(P, P[i])
  }

  ghost function Depths(P: seq<nat>): (d: seq<nat>)
    requires Upward(P)
    ensures |d| == |P| + 1 && forall i :: 0 <= i <= |P| ==> d[i] == Depth(P, i)
  {
    seq(|P| + 1, i requires 0 <= i <= |P| => Depth(P, i))
  }

  ghost predicate Descending(s: seq<nat>) { forall i, j :: 0 <= i <= j < |s| ==> s[i] >= s[j] }

  lemma {:induction false} DepthDescends(P: seq<nat>, i: nat, j: nat)
    requires Upward(P) && i <= j <= |P|
    ensures Depth(P, i) >= Depth(P, j) && Depth(P, i) <= |P| - i && (i < |P| ==> Depth(P, i) >= 1)
    decreases |P| - i
  {
    if i < |P| {
      if j < |P| { DepthDescends(P, P[i], P[j]); } else { DepthDescends(P, P[i], j); }
    }
  }

  /** The depths of the leaves. */
  ghost function LeafDepths(P: seq<nat>, PL: seq<nat>): (t: seq<nat>)
    requires Upward(P) && Within(PL, |P| + 1)
    ensures |t| == |PL| && forall i :: 0 <= i < |PL| ==> t[i] == Depth(P, PL[i]) + 1
  {
    seq(|PL|, i requires 0 <= i < |PL| => Depth(P, PL[i]) + 1)
  }

  /** A complete tree: every node has two children. */
  ghost predicate Complete(w: seq<nat>, t: Tree) {
    && |w| >= 2 && |t.W| == |w| - 1 && |t.P| == |w| - 2 && |t.PL| == |w|
    && Upward(t.P) && Sorted(t.PL) && Within(t.PL, |w| - 1)
    && BalancedForAll(w, t.W, t.W, t.PL, t.P, |w| - 1, 0, |w|)
    && BalancedForAll(Copies(1, |w|), Copies(1, |w|), Copies(2, |w|), t.PL, t.P, |w| - 1, 0, |w|)
  }

  lemma CompleteDepths(w: seq<nat>, t: Tree)
    requires Complete(w, t)
    ensures Descending(Depths(t.P)) && Descending(LeafDepths(t.P, t.PL))
    ensures AtMost(LeafDepths(t.P, t.PL), |w| - 1) && forall i :: 0 <= i < |w| ==> LeafDepths(t.P, t.PL)[i] >= 1
    ensures Depths(t.P)[|w| - 2] == 0 && forall i :: 0 <= i < |w| - 2 ==> Depths(t.P)[i] >= 1
  {
    hide BalancedForAll;
    forall i: nat, j: nat | i <= j <= |t.P| ensures Depth(t.P, i) >= Depth(t.P, j) && Depth(t.P, i) <= |t.P| && (i < |t.P| ==> Depth(t.P, i) >= 1) {
      DepthDescends(t.P, i, j);
    }
  }

  // ---- Cost and Kraft sum of the leaf depths ----

  lemma {:induction false} SumOfCost(w: seq<nat>, l: seq<nat>, PL: seq<nat>, f: seq<nat>)
    requires |w| == |l| == |PL| && Within(PL, |f|) && forall i :: 0 <= i < |PL| ==> l[i] == f[PL[i]]
    ensures SumAt(w, PL, f) == Cost(w, l)
  {
    if PL != [] {
      var n := |PL| - 1;
      SumAtShort(w, PL[..n], f);
      SumOfCost(w[..n], l[..n], PL[..n], f);
    }
  }

  lemma SumAtShort(w: seq<nat>, parent: seq<nat>, f: seq<nat>)
    requires |parent| <= |w| && Within(parent, |f|)
    ensures SumAt(w, parent, f) == SumAt(w[..|parent|], parent, f)
  {
    SumAtWeights(w, w[..|parent|], parent, f);
  }

  /** The sum over children that are nodes, in terms of the children's own values. */
  lemma {:induction false} SumOfNodes(w: seq<nat>, P: seq<nat>, f: seq<nat>, g: seq<nat>)
    requires |P| <= |w| && |P| <= |g| && Within(P, |f|) && forall i :: 0 <= i < |P| ==> g[i] == f[P[i]]
    ensures SumAt(w, P, f) == SumAll(w, g, |P|)
  {
    if P != [] { SumOfNodes(w, P[..|P| - 1], f, g); }
  }

  lemma {:induction false} SumPlusOne(W: seq<nat>, f: seq<nat>, d: seq<nat>, n: nat)
    requires n <= |W| && n <= |f| && n <= |d| && forall i :: 0 <= i < n ==> f[i] == d[i] + 1
    ensures SumAll(W, f, n) == SumAll(W, d, n) + Sum(W[..n])
  {
    if n > 0 {
      SumPlusOne(W, f, d, n - 1);
      assert W[..n][..n - 1] == W[..n - 1];
      AddTimes(d[n - 1], 1, W[n - 1]);
    }
  }

  /** The weighted depth of the leaves is the total weight of the nodes. */
  lemma LeafCost(w: seq<nat>, t: Tree)
    requires Complete(w, t)
    ensures Cost(w, LeafDepths(t.P, t.PL)) == Sum(t.W)
  {
    hide Cost, SumAt, SumAll, Sum;
    var n := |w|;
    var d := Depths(t.P);
    var f := seq(n, v requires 0 <= v < n => if v < n - 1 then d[v] + 1 else 0);
    assert Balanced(w, t.W, t.W, t.PL, t.P, f, n - 1, 0);
    SumOfCost(w, LeafDepths(t.P, t.PL), t.PL, f);
    SumOfNodes(t.W, t.P, f, d);
    SumPlusOne(t.W, f, d, n - 1);
    CompleteDepths(w, t);
    SumLast(t.W, d, n - 1);
    assert t.W[..n - 1] == t.W;
  }

  lemma SumLast(W: seq<nat>, d: seq<nat>, n: nat)
    requires 0 < n <= |W| && n <= |d| && d[n - 1] == 0
    ensures SumAll(W, d, n) == SumAll(W, d, n - 1)
  {
  }

  lemma {:induction false} SumOfKraft(l: seq<nat>, m: nat, PL: seq<nat>, f: seq<nat>)
    requires |l| == |PL| && AtMost(l, m) && Within(PL, |f|) && forall i :: 0 <= i < |PL| ==> f[PL[i]] == Pow2(m - l[i])
    ensures SumAt(Copies(1, |PL|), PL, f) == Kraft(l, m)
  {
    if PL != [] {
      var n := |PL| - 1;
      SumAtWeights(Copies(1, |PL|), Copies(1, n), PL[..n], f);
      SumOfKraft(l[..n], m, PL[..n], f);
    }
  }

  lemma {:induction false} SumDoubled(one: seq<nat>, two: seq<nat>, g: seq<nat>, f: seq<nat>, n: nat)
    requires n <= |one| && n <= |two| && n <= |g| && n <= |f|
    requires forall i :: 0 <= i < n ==> one[i] == 1 && two[i] == 2 && g[i] == 2 * f[i]
    ensures SumAll(one, g, n) == SumAll(two, f, n)
  {
    if n > 0 { SumDoubled(one, two, g, f, n - 1); }
  }

  /** What one leaf below a node contributes to the Kraft sum. */
  ghost function Shares(d: seq<nat>, n: nat): (f: seq<nat>)
    requires |d| == n - 1 && forall i :: 0 <= i < |d| ==> d[i] <= n - 1
    ensures |f| == n && forall i :: 0 <= i < |d| ==> f[i] == Pow2(n - 1 - d[i])
  {
    seq(n, v requires 0 <= v < n => if v < n - 1 then Pow2(n - 1 - d[v]) else 0)
  }

  lemma DepthBound(P: seq<nat>)
    requires Upward(P)
    ensures forall i :: 0 <= i <= |P| ==> Depths(P)[i] <= |P|
  {
    forall i: nat | i <= |P| ensures Depth(P, i) <= |P| { DepthDescends(P, i, i); }
  }

  lemma LastTerm(w: seq<nat>, f: seq<nat>, n: nat)
    requires 0 < n <= |w| && n <= |f|
    ensures SumAll(w, f, n) == SumAll(w, f, n - 1) + w[n - 1] * f[n - 1]
  {
  }

  /** A leaf gets half of what its node has, ... */
  lemma LeafShares(w: seq<nat>, t: Tree, f: seq<nat>)
    requires Complete(w, t) && |Depths(t.P)| == |w| - 1 && (forall i :: 0 <= i < |w| - 1 ==> Depths(t.P)[i] <= |w| - 1)
    requires f == Shares(Depths(t.P), |w|)
    ensures AtMost(LeafDepths(t.P, t.PL), |w|) && forall i :: 0 <= i < |w| ==> t.PL[i] < |f| && f[t.PL[i]] == Pow2(|w| - LeafDepths(t.P, t.PL)[i])
  {
    hide Complete, Upward, Depths, LeafDepths, Pow2;
    CompleteParts(w, t);
    CompleteDepths(w, t);
    forall i: nat | i < |w| ensures t.PL[i] < |f| && f[t.PL[i]] == Pow2(|w| - LeafDepths(t.P, t.PL)[i]) { DepthOfLeaf(t.P, t.PL, i); }
  }

  /** ... and so does a node. */
  lemma NodeShares(w: seq<nat>, t: Tree, f: seq<nat>, g: seq<nat>)
    requires Complete(w, t) && |Depths(t.P)| == |w| - 1 && (forall i :: 0 <= i < |w| - 1 ==> Depths(t.P)[i] <= |w| - 1)
    requires f == Shares(Depths(t.P), |w|) && |g| == |w| && forall v :: 0 <= v < |w| ==> g[v] == 2 * f[v]
    ensures |t.P| == |w| - 2 && Within(t.P, |f|) && forall i :: 0 <= i < |w| - 2 ==> g[i] == f[t.P[i]]
  {
    hide Complete, Upward, Depths, LeafDepths, Pow2;
    CompleteParts(w, t);
    var n, d := |w|, Depths(t.P);
    forall i: nat | i < n - 2 ensures t.P[i] < n && g[i] == f[t.P[i]] {
      DepthOfChild(t.P, i);
      OneLess(n - d[i]);
    }
  }

  lemma OneLess(k: nat)
    requires k > 0
    ensures Pow2(k) == 2 * Pow2(k - 1)
  {
  }

  /** The Kraft sum of the leaf depths is exactly one. */
  lemma LeafKraft(w: seq<nat>, t: Tree)
    requires Complete(w, t)
    ensures AtMost(LeafDepths(t.P, t.PL), |w|) && Kraft(LeafDepths(t.P, t.PL), |w|) == Pow2(|w|)
  {
    hide Kraft, SumAt, SumAll, Complete, Upward, Depths, Depth, LeafDepths, Sorted, Pow2, Copies, Shares, Descending;
    CompleteParts(w, t);
    CompleteDepths(w, t);
    DepthBound(t.P);
    var n := |w|;
    var f := Shares(Depths(t.P), n);
    var g := seq(n, v requires 0 <= v < n => 2 * f[v]);
    LeafShares(w, t, f);
    NodeShares(w, t, f, g);
    BalanceAt(w, t, f);
    SumOfKraft(LeafDepths(t.P, t.PL), n, t.PL, f);
    SumOfNodes(Copies(1, n), t.P, f, g);
    SumDoubled(Copies(1, n), Copies(2, n), g, f, n - 2);
    LastTerm(Copies(2, n), f, n - 1);
    OneLess(n);
  }

  // ---- How many leaves and nodes there are at each depth ----

  function CountTo(s: seq<nat>, v: nat, n: nat): nat
    requires n <= |s|
  {
    if n == 0 then 0 else CountTo(s, v, n - 1) + B2N(s[n - 1] == v)
  }

  lemma {:induction false} SumOfCount(s: seq<nat>, v: nat, ones: seq<nat>, P: seq<nat>, f: seq<nat>)
    requires |P| <= |s| && |P| <= |ones| && Within(P, |f|)
    requires forall i :: 0 <= i < |P| ==> ones[i] == 1 && f[P[i]] == B2N(s[i] == v)
    ensures SumAt(ones, P, f) == CountTo(s, v, |P|)
  {
    if P != [] { SumOfCount(s, v, ones, P[..|P| - 1], f); }
  }

  lemma {:induction false} TwiceCount(s: seq<nat>, v: nat, twos: seq<nat>, f: seq<nat>, n: nat)
    requires n <= |s| && n <= |twos| && n <= |f|
    requires forall i :: 0 <= i < n ==> twos[i] == 2 && f[i] == B2N(s[i] == v)
    ensures SumAll(twos, f, n) == 2 * CountTo(s, v, n)
  {
    if n > 0 { TwiceCount(s, v, twos, f, n - 1); }
  }

  /** The balance for one valuation of the nodes. */
  lemma BalanceAt(w: seq<nat>, t: Tree, f: seq<nat>)
    requires Complete(w, t) && |f| == |w|
    ensures Within(t.PL, |f|) && Within(t.P, |f|)
    ensures SumAt(Copies(1, |w|), t.PL, f) + SumAt(Copies(1, |w|), t.P, f) == SumAll(Copies(2, |w|), f, |w| - 1)
  {
    hide SumAt, SumAll;
    assert Balanced(Copies(1, |w|), Copies(1, |w|), Copies(2, |w|), t.PL, t.P, f, |w| - 1, 0);
  }

  lemma CompleteParts(w: seq<nat>, t: Tree)
    requires Complete(w, t)
    ensures |w| >= 2 && |t.W| == |w| - 1 && |t.P| == |w| - 2 && |t.PL| == |w| && Upward(t.P) && Within(t.PL, |w| - 1)
  {
  }

  /** Two children for every node one level up. */
  lemma LevelCount(w: seq<nat>, t: Tree, depth: nat)
    requires Complete(w, t) && depth >= 1
    ensures
      CountTo(LeafDepths(t.P, t.PL), depth, |w|) + CountTo(Depths(t.P), depth, |w| - 1) == 2 * CountTo(Depths(t.P), depth - 1, |w| - 1)
  {
    hide *;
    CompleteParts(w, t);
    var n := |w|;
    var f := Indicator(Depths(t.P), depth - 1, n);
    BalanceAt(w, t, f);
    LeavesAt(w, t, f, depth);
    NodesAt(w, t, f, depth);
    TwiceCount(Depths(t.P), depth - 1, Copies(2, n), f, n - 1);
  }

  lemma LeavesAt(w: seq<nat>, t: Tree, f: seq<nat>, depth: nat)
    requires Complete(w, t) && depth >= 1 && f == Indicator(Depths(t.P), depth - 1, |w|) && Within(t.PL, |f|)
    ensures SumAt(Copies(1, |w|), t.PL, f) == CountTo(LeafDepths(t.P, t.PL), depth, |w|)
  {
    hide SumAt, Complete, Upward, Depths, LeafDepths, Sorted, CountTo, Indicator;
    CompleteParts(w, t);
    var l := LeafDepths(t.P, t.PL);
    forall i | 0 <= i < |w| ensures f[t.PL[i]] == B2N(l[i] == depth) { DepthOfLeaf(t.P, t.PL, i); }
    SumOfCount(l, depth, Copies(1, |w|), t.PL, f);
  }

  lemma NodesAt(w: seq<nat>, t: Tree, f: seq<nat>, depth: nat)
    requires Complete(w, t) && depth >= 1 && f == Indicator(Depths(t.P), depth - 1, |w|) && Within(t.P, |f|)
    ensures SumAt(Copies(1, |w|), t.P, f) == CountTo(Depths(t.P), depth, |w| - 1)
  {
    hide SumAt, Complete, Upward, Depths, Sorted, CountTo, Indicator;
    CompleteParts(w, t);
    CompleteDepths(w, t);
    var d := Depths(t.P);
    forall i | 0 <= i < |w| - 2 ensures f[t.P[i]] == B2N(d[i] == depth) { DepthOfChild(t.P, i); }
    SumOfCount(d, depth, Copies(1, |w|), t.P, f);
    CountLast(d, depth, |w| - 1);
  }

  ghost function Indicator(d: seq<nat>, v: nat, n: nat): (f: seq<nat>)
    requires |d| < n
    ensures |f| == n && forall i :: 0 <= i < |d| ==> f[i] == B2N(d[i] == v)
  {
    seq(n, i requires 0 <= i < n => if i < |d| then B2N(d[i] == v) else 0)
  }

  lemma DepthOfLeaf(P: seq<nat>, PL: seq<nat>, i: nat)
    requires Upward(P) && Within(PL, |P| + 1) && i < |PL|
    ensures PL[i] <= |P| && LeafDepths(P, PL)[i] == Depths(P)[PL[i]] + 1
  {
  }

  lemma DepthOfChild(P: seq<nat>, i: nat)
    requires Upward(P) && i < |P|
    ensures i < P[i] <= |P| && Depths(P)[i] == 1 + Depths(P)[P[i]]
  {
  }

  lemma CountLast(s: seq<nat>, v: nat, n: nat)
    requires 0 < n <= |s| && s[n - 1] != v
    ensures CountTo(s, v, n) == CountTo(s, v, n - 1)
  {
  }

  /** In a descending sequence the entries of one value form a block. */
  lemma {:induction false} BlockOf(s: seq<nat>, v: nat, k: nat)
    requires Descending(s) && k <= |s| && forall i :: 0 <= i < k ==> s[i] >= v
    ensures
      var m := CountTo(s, v, k);
      m <= k && (forall i :: k - m <= i < k ==> s[i] == v) && forall i :: 0 <= i < k - m ==> s[i] > v
  {
    if k > 0 {
      if s[k - 1] == v { BlockOf(s, v, k - 1); } else { NoneLarger(s, v, k); }
    }
  }

  lemma {:induction false} NoneLarger(s: seq<nat>, v: nat, k: nat)
    requires k <= |s| && forall i :: 0 <= i < k ==> s[i] != v
    ensures CountTo(s, v, k) == 0
  {
    if k > 0 { NoneLarger(s, v, k - 1); }
  }

  lemma {:induction false} NoneBehind(s: seq<nat>, v: nat, k: nat, n: nat)
    requires k <= n <= |s| && forall i :: k <= i < n ==> s[i] != v
    ensures CountTo(s, v, n) == CountTo(s, v, k)
  {
    if k < n { NoneBehind(s, v, k, n - 1); }
  }

  // ---- Second phase ----

  lemma DepthStep(P: seq<nat>, i: nat)
    requires Upward(P) && i <= |P|
    ensures |Depths(P)| == |P| + 1
    ensures i == |P| ==> Depths(P)[i] == 0
    ensures i < |P| ==> i < P[i] <= |P| && Depths(P)[i] == Depths(P)[P[i]] + 1
  {
  }

  /** Parents are turned into depths, from the root down. */
  method NodeDepths(a: array<nat>, ghost P: seq<nat>)
    requires a.Length >= 2 && |P| == a.Length - 2 && Upward(P) && a[..a.Length - 2] == P
    modifies a
    ensures a[..a.Length - 1] == Depths(P)
  {
    hide Upward, Depths, Depth;
    var n := a.Length;
    DepthStep(P, n - 2);
    a[n - 2] := 0;
    var next := n - 3;
    while next >= 0
      invariant -1 <= next <= n - 3
      invariant forall i :: 0 <= i <= next ==> a[i] == P[i]
      invariant forall i :: next < i <= n - 2 ==> a[i] == Depths(P)[i]
      decreases next
    {
      DepthStep(P, next);
      a[next] := a[a[next]] + 1;
      next := next - 1;
    }
  }

  // ---- Third phase ----

  /** Depths of nodes up to `root` and of leaves behind `next`; what lies between is free. */
  ghost predicate Levels(a: seq<nat>, d: seq<nat>, l: seq<nat>, root: int, next: int, depth: nat) {
    && |a| == |l| == |d| + 1 && -1 <= root < |d| && root <= next < |l|
    && (forall i :: 0 <= i <= root ==> a[i] == d[i]) && (forall i :: next < i < |l| ==> a[i] == l[i])
    && (forall i :: 0 <= i <= root ==> d[i] >= depth) && (forall i :: root < i < |d| ==> d[i] < depth)
    && (forall i :: 0 <= i <= next ==> l[i] >= depth) && (forall i :: next < i < |l| ==> l[i] < depth)
  }

  /** The entries of one depth among the nodes and the leaves. */
  lemma LevelBlocks(a: seq<nat>, d: seq<nat>, l: seq<nat>, root: int, next: int, depth: nat)
    requires Levels(a, d, l, root, next, depth) && Descending(d) && Descending(l)
    ensures
      var m, k := CountTo(d, depth, |d|), CountTo(l, depth, |l|);
      && m <= root + 1 && (forall i :: root - m < i <= root ==> d[i] == depth) && (forall i :: 0 <= i <= root - m ==> d[i] > depth)
      && k <= next + 1 && (forall i :: next - k < i <= next ==> l[i] == depth) && (forall i :: 0 <= i <= next - k ==> l[i] > depth)
  {
    hide Descending, CountTo;
    BlockOf(d, depth, root + 1);
    NoneBehind(d, depth, root + 1, |d|);
    BlockOf(l, depth, next + 1);
    NoneBehind(l, depth, next + 1, |l|);
  }

  /** How many slots there are at a depth, and what fills them. */
  lemma LevelSizes(w: seq<nat>, t: Tree, depth: nat)
    requires Complete(w, t)
    ensures
      var nodes, leaves := CountTo(Depths(t.P), depth, |w| - 1), CountTo(LeafDepths(t.P, t.PL), depth, |w|);
      nodes + leaves == if depth == 0 then 1 else 2 * CountTo(Depths(t.P), depth - 1, |w| - 1)
  {
    hide Complete, Depths, LeafDepths, Upward;
    CompleteParts(w, t);
    CompleteDepths(w, t);
    if depth == 0 {
      NoneLarger(LeafDepths(t.P, t.PL), 0, |w|);
      NoneLarger(Depths(t.P), 0, |w| - 2);
    } else {
      LevelCount(w, t, depth);
    }
  }

  /** Without nodes at a depth there are none further down. */
  lemma NoGap(w: seq<nat>, t: Tree, i: nat)
    requires Complete(w, t) && i < |w| - 1 && Depths(t.P)[i] > 0
    ensures CountTo(Depths(t.P), Depths(t.P)[i] - 1, |w| - 1) > 0
  {
    hide Complete, Depths, LeafDepths, Upward, Depth;
    CompleteParts(w, t);
    CompleteDepths(w, t);
    DepthOfChild(t.P, i);
    Counted(Depths(t.P), t.P[i], |w| - 1);
  }

  lemma {:induction false} Counted(s: seq<nat>, i: nat, n: nat)
    requires i < n <= |s|
    ensures CountTo(s, s[i], n) > 0
  {
    if i < n - 1 { Counted(s, i, n - 1); }
  }

  /** One depth: the nodes of this depth are passed over, the other slots become leaves. */
  method OneLevel(a: array<nat>, root: int, next: int, avbl: nat, dpth: nat, ghost w: seq<nat>, ghost t: Tree)
    returns (root': int, next': int, used: nat)
    requires Complete(w, t) && a.Length == |w| && Levels(a[..], Depths(t.P), LeafDepths(t.P, t.PL), root, next, dpth)
    requires avbl == next - root == if dpth == 0 then 1 else 2 * CountTo(Depths(t.P), dpth - 1, |w| - 1)
    modifies a
    ensures used == CountTo(Depths(t.P), dpth, |w| - 1)
    ensures Levels(a[..], Depths(t.P), LeafDepths(t.P, t.PL), root', next', dpth + 1)
    ensures next' - root' == 2 * used && root' + next' == root + next - avbl && -1 <= root' <= next'
  {
    hide Complete, Depths, LeafDepths, Depth, CountTo, Upward, Descending;
    CompleteParts(w, t);
    CompleteDepths(w, t);
    ghost var d, l := Depths(t.P), LeafDepths(t.P, t.PL);
    LevelBlocks(a[..], d, l, root, next, dpth);
    LevelSizes(w, t, dpth);
    ghost var m, k := CountTo(d, dpth, |d|), CountTo(l, dpth, |l|);
    root', used := root, 0;
    while root' >= 0 && a[root'] == dpth
      invariant used <= m && root' == root - used
      decreases m - used
    {
      used := used + 1;
      root' := root' - 1;
    }
    next' := next;
    var left := avbl;
    while left > used
      invariant used <= left <= avbl && next' == next - (avbl - left)
      invariant forall i :: 0 <= i <= root' ==> a[i] == d[i]
      invariant forall i :: next' < i < |l| ==> a[i] == l[i]
      decreases left
    {
      a[next'] := dpth;
      next' := next' - 1;
      left := left - 1;
    }
  }

  /** Lengths of a complete prefix code that do not ascend and cost no more than any other prefix code. */
  ghost predicate MinimumRedundancy(w: seq<nat>, l: seq<nat>) {
    && |w| == |l| && Descending(l) && (forall i :: 0 <= i < |l| ==> 1 <= l[i] < |l|)
    && AtMost(l, |l|) && Kraft(l, |l|) == Pow2(|l|)
    && Cost(w, l) == HuffmanCost(multiset(w))
    && forall other: seq<nat>, m: nat {:trigger Fits(other, m)} :: |other| == |w| && Fits(other, m) ==> Cost(w, l) <= Cost(w, other)
  }

  lemma Minimal(w: seq<nat>, t: Tree)
    requires Complete(w, t) && HuffmanCost(multiset(w)) == Sum(t.W)
    ensures MinimumRedundancy(w, LeafDepths(t.P, t.PL))
  {
    hide Complete, LeafDepths, Cost, Kraft, HuffmanCost, Sum, Fits, Upward;
    CompleteParts(w, t);
    CompleteDepths(w, t);
    LeafCost(w, t);
    LeafKraft(w, t);
    forall other: seq<nat>, m: nat | |other| == |w| && Fits(other, m) ensures Cost(w, LeafDepths(t.P, t.PL)) <= Cost(w, other) {
      HuffmanIsMinimal(w, other, m);
    }
  }

  lemma TreeComplete(w: seq<nat>, t: Tree)
    requires |w| >= 2 && |t.W| == |w| - 1 && |t.P| == |w| - 2 && |t.PL| == |w| && ParentsOk(t, |w| - 1)
    requires BalancedForAll(w, t.W, t.W, t.PL, t.P, |w| - 1, 0, |w|)
    requires BalancedForAll(Copies(1, |w|), Copies(1, |w|), Copies(2, |w|), t.PL, t.P, |w| - 1, 0, |w|)
    ensures Complete(w, t) && Upward(t.P) && Within(t.PL, |t.P| + 1)
  {
    hide BalancedForAll;
  }

  lemma FirstLevel(a: seq<nat>, w: seq<nat>, t: Tree)
    requires Complete(w, t) && |a| == |w| && a[..|w| - 1] == Depths(t.P)
    ensures Levels(a, Depths(t.P), LeafDepths(t.P, t.PL), |w| - 2, |w| - 1, 0)
  {
    hide Complete, Depths, LeafDepths, Upward;
    CompleteParts(w, t);
    CompleteDepths(w, t);
    forall i | 0 <= i <= |w| - 2 ensures a[i] == Depths(t.P)[i] { assert a[..|w| - 1][i] == a[i]; }
  }

  /** When no slot is left, all nodes are passed and all leaves placed. */
  lemma LastLevel(a: seq<nat>, w: seq<nat>, t: Tree, root: int, next: int, depth: nat)
    requires Complete(w, t) && Levels(a, Depths(t.P), LeafDepths(t.P, t.PL), root, next, depth) && next == root
    requires depth > 0 && CountTo(Depths(t.P), depth - 1, |w| - 1) == 0
    ensures a == LeafDepths(t.P, t.PL)
  {
    hide Complete, Depths, LeafDepths, Upward, CountTo;
    CompleteParts(w, t);
    CompleteDepths(w, t);
    if root >= 0 {
      NoGap(w, t, root);
      DepthOfChild(t.P, root);
      assert false;
    }
  }

  // ---- The longest length ----

  /** No node reaches further down than the root does. */
  lemma {:induction false} NotHigher(t: Tree, heights: seq<nat>, i: nat)
    requires HeightsOk(t, heights) && Upward(t.P) && |t.W| == |t.P| + 1 && i <= |t.P|
    ensures Depth(t.P, i) + heights[i] <= heights[|t.P|]
    decreases |t.P| - i
  {
    hide Reached;
    if i < |t.P| { NotHigher(t, heights, t.P[i]); }
  }

  /** Down from a node that reaches as far as the root does, there is a leaf as deep as the root is high. */
  lemma {:induction false} WayDown(t: Tree, heights: seq<nat>, v: nat) returns (i: nat)
    requires HeightsOk(t, heights) && Upward(t.P) && |t.W| == |t.P| + 1 && Within(t.PL, |t.P| + 1) && v <= |t.P|
    requires Depth(t.P, v) + heights[v] == heights[|t.P|]
    ensures i < |t.PL| && LeafDepths(t.P, t.PL)[i] == heights[|t.P|]
    decreases heights[v]
  {
    assert Reached(t, heights, v);
    if heights[v] == 1 {
      i :| i < |t.PL| && t.PL[i] == v;
    } else {
      var c: nat :| c < |t.P| && t.P[c] == v && heights[v] == heights[c] + 1;
      i := WayDown(t, heights, c);
    }
  }

  lemma LongestLeaf(w: seq<nat>, t: Tree, heights: seq<nat>)
    requires Complete(w, t) && Upward(t.P) && Within(t.PL, |t.P| + 1) && HeightsOk(t, heights)
    ensures |w| >= 2 && |heights| == |w| - 1 && |LeafDepths(t.P, t.PL)| == |w|
    ensures LeafDepths(t.P, t.PL)[0] == heights[|w| - 2]
  {
    hide Complete, HeightsOk, LeafDepths, Depths;
    CompleteParts(w, t);
    CompleteDepths(w, t);
    HeightParts(t, heights);
    DepthOfLeaf(t.P, t.PL, 0);
    var i := WayDown(t, heights, |t.P|);
    NotHigher(t, heights, t.PL[0]);
    AtLeastOne(t, heights, t.PL[0]);
  }

  lemma AtLeastOne(t: Tree, heights: seq<nat>, v: nat)
    requires HeightsOk(t, heights) && v < |heights|
    ensures heights[v] >= 1
  {
  }

  // ---- When all lengths are equal ----

  predicate AllAre(l: seq<nat>, k: nat) { forall i :: 0 <= i < |l| ==> l[i] == k }

  /** In a tree of 2^k leaves that are paired off, node i is as deep as its distance from the end says. */
  lemma {:induction false} DepthOfPaired(P: seq<nat>, n: nat, j: nat, i: nat)
    requires Upward(P) && |P| == n - 2 && (forall h :: 0 <= h < |P| ==> P[h] == n / 2 + h / 2)
    requires n % 2 == 0 && Pow2(j + 1) <= n && n - Pow2(j + 1) <= i < n - Pow2(j)
    ensures i <= |P| && Depth(P, i) == j
  {
    if j > 0 {
      assert Pow2(j + 1) == 2 * Pow2(j) && Pow2(j) == 2 * Pow2(j - 1);
      DepthOfPaired(P, n, j - 1, P[i]);
    }
  }

  lemma PairedDepths(t: Tree, k: nat)
    requires k >= 1 && |t.PL| == Pow2(k) == |t.P| + 2 && Upward(t.P) && Within(t.PL, |t.P| + 1) && Paired(t, |t.PL|)
    ensures AllAre(LeafDepths(t.P, t.PL), k)
  {
    hide Depth, Upward;
    assert Pow2(k) == 2 * Pow2(k - 1);
    forall i: nat | i < |t.PL| ensures Depth(t.P, t.PL[i]) == k - 1 { DepthOfPaired(t.P, |t.PL|, k - 1, i / 2); }
  }

  /** If a code of 2^k lengths k is minimal, no weight exceeds the sum of the two smallest ones. */
  lemma LevelMeansClose(w: seq<nat>, l: seq<nat>, k: nat)
    requires MinimumRedundancy(w, l) && k >= 2 && |l| == Pow2(k) && AllAre(l, k)
    ensures |w| >= 4 && w[|w| - 1] <= w[0] + w[1]
  {
    hide Cost, Kraft, HuffmanCost, Pow2, Descending;
    SmallestPowers(k);
    var n, m := |l|, k + 1;
    CompleteAtLength(l, k);
    var a := l[n - 1 := k - 1];
    var b := a[0 := k + 1];
    ReplaceLength(w, l, n - 1, k - 1, m);
    ReplaceLength(w, a, 0, k + 1, m);
    ReplaceLength(w, b, 1, k + 1, m);
    var c := b[1 := k + 1];
    assert Fits(c, m);
    CloserSum(w[n - 1], w[0], w[1], k);
  }

  lemma SmallestPowers(k: nat)
    requires k >= 2
    ensures Pow2(k) >= 4 && Pow2(0) == 1 && Pow2(1) == 2 && Pow2(2) == 4
    ensures Pow2(k + 1 - (k - 1)) == 4 && Pow2(k + 1 - k) == 2 && Pow2(k + 1 - (k + 1)) == 1
  {
    Pow2Monotone(2, k);
    assert Pow2(2) == 4;
  }

  lemma CompleteAtLength(l: seq<nat>, k: nat)
    requires |l| == Pow2(k) && AllAre(l, k)
    ensures AtMost(l, k + 1) && Kraft(l, k + 1) == Pow2(k + 1)
  {
    KraftOfLevel(l, k);
  }

  lemma {:induction false} KraftOfLevel(l: seq<nat>, k: nat)
    requires AllAre(l, k)
    ensures AtMost(l, k + 1) && Kraft(l, k + 1) == 2 * |l|
  {
    if l != [] {
      KraftOfLevel(l[..|l| - 1], k);
      assert Pow2(k + 1 - k) == 2;
    }
  }

  lemma CloserSum(x: nat, y: nat, z: nat, k: nat)
    requires k >= 1
    ensures x * k == x * (k - 1) + x && y * (k + 1) == y * k + y && z * (k + 1) == z * k + z
  {
  }

  /**
   * calculate_minimum_redundancy: weights in ascending order are replaced by code lengths that make a complete
   * prefix code, do not ascend, and cost no more than any other prefix code. The weights add up to less than 2^32,
   * so that no key overflows: none that is stored exceeds their sum. If there are 2^k of them and the largest is no
   * more than the two smallest together, all lengths are k. The longest length is the height that Huffman's algorithm
   * on two queues gives.
   */
  method CalculateMinimumRedundancy(a: array<nat>)
    requires Sorted(a[..]) && Sum(a[..]) < 0x1_0000_0000
    modifies a
    ensures a.Length == 1 ==> a[0] == 1
    ensures a.Length >= 2 ==> MinimumRedundancy(old(a[..]), a[..]) && a[0] == TreeHeight(old(a[..]), [])
    ensures forall k: nat {:trigger AllAre(a[..], k)} :: LeavesFirst(old(a[..])) && a.Length == Pow2(k) ==> AllAre(a[..], k)
  {
    hide Paired, AllAre, Pow2, Sum, Complete, Depths, LeafDepths, Depth, CountTo, Upward, Descending, Levels, BalancedForAll, Sorted, ParentsOk, HuffmanCost,
         MinimumRedundancy, HeightsOk, TreeHeight;
    var n := a.Length;
    if n == 0 { return; }
    if n == 1 {
      a[0] := 1;
      return;
    }
    ghost var w := a[..];
    ghost var t, heights := BuildTree(a);
    TreeComplete(w, t);
    NodeDepths(a, t.P);
    ghost var d, l := Depths(t.P), LeafDepths(t.P, t.PL);
    var avbl: nat, used: nat, dpth: nat := 1, 0, 0;
    var root: int, next: int := n - 2, n - 1;
    FirstLevel(a[..], w, t);
    while avbl > 0
      invariant a.Length == |w| && Levels(a[..], d, l, root, next, dpth) && -1 <= root <= next
      invariant avbl == next - root == if dpth == 0 then 1 else 2 * CountTo(d, dpth - 1, n - 1)
      decreases root + next + 2
    {
      root, next, used := OneLevel(a, root, next, avbl, dpth, w, t);
      avbl := 2 * used;
      dpth := dpth + 1;
      used := 0;
    }
    LastLevel(a[..], w, t, root, next, dpth);
    Minimal(w, t);
    LongestLeaf(w, t, heights);
    forall k: nat | LeavesFirst(w) && n == Pow2(k) ensures AllAre(a[..], k) {
      NotOne(k);
      PairedDepths(t, k);
    }
  }

  lemma NotOne(k: nat)
    requires Pow2(k) >= 2
    ensures k >= 1
  {
  }
}
