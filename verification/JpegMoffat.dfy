/** The in-place algorithm of Moffat and Katajainen (compositor/jpge.cpp:163-182). */
module JpegMoffat {
  import opened Bits
  import opened Canonical
  import opened JpegMinimum

  // ---- Sums over the children and the nodes of the tree ----

  /** The sum of w[i] * f(parent of i). */
  function SumAt(w: seq<nat>, parent: seq<nat>, f: seq<nat>): nat
    requires |parent| <= |w| && forall i :: 0 <= i < |parent| ==> parent[i] < |f|
  {
    if parent == [] then 0
    else SumAt(w, parent[..|parent| - 1], f) + w[|parent| - 1] * f[parent[|parent| - 1]]
  }

  /** The sum of total[v] * f(v) over the first n nodes. */
  function SumAll(total: seq<nat>, f: seq<nat>, n: nat): nat
    requires n <= |total| && n <= |f|
  {
    if n == 0 then 0 else SumAll(total, f, n - 1) + total[n - 1] * f[n - 1]
  }

  ghost predicate Within(parent: seq<nat>, n: nat) { forall i :: 0 <= i < |parent| ==> parent[i] < n }

  /** What the children of the nodes weigh is what the nodes weigh, however nodes are valued by f. */
  ghost predicate Balanced(leafWeights: seq<nat>, nodeWeights: seq<nat>, totals: seq<nat>, leafParent: seq<nat>,
                           nodeParent: seq<nat>, f: seq<nat>, next: nat, extra: nat) {
    && |leafParent| <= |leafWeights| && |nodeParent| <= |nodeWeights| && next <= |totals| && next < |f|
    && Within(leafParent, |f|) && Within(nodeParent, |f|)
    && SumAt(leafWeights, leafParent, f) + SumAt(nodeWeights, nodeParent, f) == SumAll(totals, f, next) + extra * f[next]
  }

  ghost predicate BalancedForAll(leafWeights: seq<nat>, nodeWeights: seq<nat>, totals: seq<nat>, leafParent: seq<nat>,
                                 nodeParent: seq<nat>, next: nat, extra: nat, n: nat) {
    forall f: seq<nat> {:trigger Balanced(leafWeights, nodeWeights, totals, leafParent, nodeParent, f, next, extra)} ::
      |f| == n ==> Balanced(leafWeights, nodeWeights, totals, leafParent, nodeParent, f, next, extra)
  }

  lemma SumAtPush(w: seq<nat>, parent: seq<nat>, f: seq<nat>, v: nat)
    requires |parent| < |w| && Within(parent, |f|) && v < |f|
    ensures SumAt(w, parent + [v], f) == SumAt(w, parent, f) + w[|parent|] * f[v]
  {
    assert (parent + [v])[..|parent|] == parent;
  }

  lemma {:induction false} SumAtWeights(w: seq<nat>, w': seq<nat>, parent: seq<nat>, f: seq<nat>)
    requires |parent| <= |w| && |parent| <= |w'| && Within(parent, |f|) && forall i :: 0 <= i < |parent| ==> w[i] == w'[i]
    ensures SumAt(w, parent, f) == SumAt(w', parent, f)
  {
    if parent != [] { SumAtWeights(w, w', parent[..|parent| - 1], f); }
  }

  lemma {:induction false} SumAllWeights(t: seq<nat>, t': seq<nat>, f: seq<nat>, n: nat)
    requires n <= |t| && n <= |t'| && n <= |f| && forall i :: 0 <= i < n ==> t[i] == t'[i]
    ensures SumAll(t, f, n) == SumAll(t', f, n)
  {
    if n > 0 { SumAllWeights(t, t', f, n - 1); }
  }

  /** A leaf becomes a child of node `next`. */
  lemma LeafChild(lw: seq<nat>, nw: seq<nat>, totals: seq<nat>, lp: seq<nat>, np: seq<nat>, next: nat, extra: nat, n: nat)
    requires BalancedForAll(lw, nw, totals, lp, np, next, extra, n) && |lp| < |lw| && next < n
    ensures BalancedForAll(lw, nw, totals, lp + [next], np, next, extra + lw[|lp|], n)
  {
    hide SumAt, SumAll;
    forall f: seq<nat> | |f| == n ensures Balanced(lw, nw, totals, lp + [next], np, f, next, extra + lw[|lp|]) {
      assert Balanced(lw, nw, totals, lp, np, f, next, extra);
      SumAtPush(lw, lp, f, next);
      AddTimes(extra, lw[|lp|], f[next]);
    }
  }

  lemma AddTimes(a: nat, b: nat, c: nat)
    ensures (a + b) * c == a * c + b * c
  {
  }

  /** A node becomes a child of node `next`. */
  lemma NodeChild(lw: seq<nat>, nw: seq<nat>, totals: seq<nat>, lp: seq<nat>, np: seq<nat>, next: nat, extra: nat, n: nat)
    requires BalancedForAll(lw, nw, totals, lp, np, next, extra, n) && |np| < |nw| && next < n
    ensures BalancedForAll(lw, nw, totals, lp, np + [next], next, extra + nw[|np|], n)
  {
    hide SumAt, SumAll;
    forall f: seq<nat> | |f| == n ensures Balanced(lw, nw, totals, lp, np + [next], f, next, extra + nw[|np|]) {
      assert Balanced(lw, nw, totals, lp, np, f, next, extra);
      SumAtPush(nw, np, f, next);
      AddTimes(extra, nw[|np|], f[next]);
    }
  }

  /** Node `next` has its two children. */
  lemma NodeComplete(lw: seq<nat>, nw: seq<nat>, nw': seq<nat>, totals: seq<nat>, totals': seq<nat>, lp: seq<nat>, np: seq<nat>,
                     next: nat, extra: nat, n: nat)
    requires BalancedForAll(lw, nw, totals, lp, np, next, extra, n) && next + 1 < n
    requires |np| <= |nw'| && |np| <= |nw| && (forall i :: 0 <= i < |np| ==> nw'[i] == nw[i])
    requires next < |totals'| && next <= |totals| && (forall i :: 0 <= i < next ==> totals'[i] == totals[i]) && totals'[next] == extra
    ensures BalancedForAll(lw, nw', totals', lp, np, next + 1, 0, n)
  {
    forall f: seq<nat> | |f| == n ensures Balanced(lw, nw', totals', lp, np, f, next + 1, 0) {
      assert Balanced(lw, nw, totals, lp, np, f, next, extra);
      SumAtWeights(nw, nw', np, f);
      SumAllWeights(totals, totals', f, next);
    }
  }

  // ---- The two queues ----

  ghost predicate Sorted(s: seq<nat>) { forall i, j :: 0 <= i <= j < |s| ==> s[i] <= s[j] }

  /** The weights still to be merged: leaves from `leaf` on and nodes from `root` on. */
  ghost function Remaining(w: seq<nat>, W: seq<nat>, leaf: nat, root: nat): multiset<nat>
    requires leaf <= |w| && root <= |W|
  {
    multiset(w[leaf..]) + multiset(W[root..])
  }

  lemma TakeLeaf(w: seq<nat>, W: seq<nat>, leaf: nat, root: nat)
    requires Sorted(w) && Sorted(W) && leaf < |w| && root <= |W| && (root < |W| ==> w[leaf] <= W[root])
    ensures IsMin(Remaining(w, W, leaf, root), w[leaf])
    ensures Remaining(w, W, leaf + 1, root) == Minus(Remaining(w, W, leaf, root), w[leaf])
  {
    assert w[leaf..] == [w[leaf]] + w[leaf + 1..];
    SortedRest(w, leaf);
    if root < |W| { SortedRest(W, root); }
  }

  lemma TakeNode(w: seq<nat>, W: seq<nat>, leaf: nat, root: nat)
    requires Sorted(w) && Sorted(W) && leaf <= |w| && root < |W| && (leaf < |w| ==> W[root] <= w[leaf])
    ensures IsMin(Remaining(w, W, leaf, root), W[root])
    ensures Remaining(w, W, leaf, root + 1) == Minus(Remaining(w, W, leaf, root), W[root])
  {
    assert W[root..] == [W[root]] + W[root + 1..];
    SortedRest(W, root);
    if leaf < |w| { SortedRest(w, leaf); }
  }

  lemma SortedRest(s: seq<nat>, i: nat)
    requires Sorted(s) && i < |s|
    ensures forall y :: y in multiset(s[i..]) ==> s[i] <= y
  {
    forall y | y in multiset(s[i..]) ensures s[i] <= y {
      var k :| 0 <= k < |s[i..]| && s[i..][k] == y;
      assert y == s[i + k];
    }
  }

  lemma NewNode(w: seq<nat>, W: seq<nat>, leaf: nat, root: nat, x: nat)
    requires leaf <= |w| && root <= |W|
    ensures Remaining(w, W + [x], leaf, root) == Remaining(w, W, leaf, root) + multiset{x}
  {
    assert (W + [x])[root..] == W[root..] + [x];
  }

  // ---- First phase: the tree is built ----

  /** Weights of the nodes, parents of the nodes that have one, parents of the leaves that have one. */
  datatype Tree = Tree(W: seq<nat>, P: seq<nat>, PL: seq<nat>)

  /** How the array holds the tree: parents, node weights and leaf weights, one after the other. */
  ghost predicate Layout(a: seq<nat>, w: seq<nat>, t: Tree) {
    && |a| == |w| && |t.P| <= |t.W| <= |w| && |t.PL| <= |w|
    && (forall i :: 0 <= i < |t.P| ==> a[i] == t.P[i])
    && (forall i :: |t.P| <= i < |t.W| ==> a[i] == t.W[i])
    && (forall i :: |t.PL| <= i < |w| ==> a[i] == w[i])
  }

  ghost predicate ParentsOk(t: Tree, bound: nat) {
    && Sorted(t.P) && Sorted(t.PL)
    && (forall i :: 0 <= i < |t.P| ==> i < t.P[i] < bound)
    && (forall i :: 0 <= i < |t.PL| ==> t.PL[i] < bound)
  }

  /** k of the two children of node |t.W| have been chosen; they weigh `extra`. */
  ghost predicate Building(a: seq<nat>, w: seq<nat>, t: Tree, k: nat, extra: nat) {
    && Layout(a, w, t) && ParentsOk(t, if k == 0 then |t.W| else |t.W| + 1) && Sorted(w) && Sorted(t.W)
    && |t.P| + |t.PL| == 2 * |t.W| + k && |t.W| < |w|
    && BalancedForAll(w, t.W, t.W, t.PL, t.P, |t.W|, extra, |w|)
    && BalancedForAll(Copies(1, |w|), Copies(1, |w|), Copies(2, |w|), t.PL, t.P, |t.W|, k, |w|)
  }

  ghost function Rest(w: seq<nat>, t: Tree): multiset<nat>
    requires |t.PL| <= |w| && |t.P| <= |t.W|
  {
    Remaining(w, t.W, |t.PL|, |t.P|)
  }

  lemma AddNode(a: seq<nat>, w: seq<nat>, t: Tree, k: nat, extra: nat)
    requires Building(a, w, t, k, extra) && k < 2 && |t.P| < |t.W| && |t.W| < |w|
    ensures |t.P| < |a| && a[|t.P|] == t.W[|t.P|]
    ensures Building(a[|t.P| := |t.W| as nat], w, t.(P := t.P + [|t.W|]), k + 1, extra + t.W[|t.P|])
  {
    hide BalancedForAll;
    NodeChild(w, t.W, t.W, t.PL, t.P, |t.W|, extra, |w|);
    NodeChild(Copies(1, |w|), Copies(1, |w|), Copies(2, |w|), t.PL, t.P, |t.W|, k, |w|);
  }

  lemma AddLeaf(a: seq<nat>, w: seq<nat>, t: Tree, k: nat, extra: nat)
    requires Building(a, w, t, k, extra) && k < 2 && |t.PL| < |w|
    ensures |a| == |w| && a[|t.PL|] == w[|t.PL|]
    ensures Building(a, w, t.(PL := t.PL + [|t.W|]), k + 1, extra + w[|t.PL|])
  {
    hide BalancedForAll;
    LeafChild(w, t.W, t.W, t.PL, t.P, |t.W|, extra, |w|);
    LeafChild(Copies(1, |w|), Copies(1, |w|), Copies(2, |w|), t.PL, t.P, |t.W|, k, |w|);
  }

  /** Something is left to choose. */
  lemma SomethingLeft(a: seq<nat>, w: seq<nat>, t: Tree, k: nat, extra: nat)
    requires Building(a, w, t, k, extra) && |t.W| + 2 <= |w| && k < 2
    ensures |t.PL| <= |w| && |t.P| <= |t.W| && (|t.PL| < |w| || |t.P| < |t.W|)
    ensures |t.P| < |t.W| ==> |t.W| <= |t.PL|
    ensures k == 0 && |t.P| < |t.W| ==> |t.W| < |t.PL|
  {
  }

  lemma ChosenNode(a: seq<nat>, w: seq<nat>, t: Tree, k: nat, extra: nat)
    requires Building(a, w, t, k, extra) && |t.P| < |t.W| && (|t.PL| < |w| ==> t.W[|t.P|] <= w[|t.PL|])
    ensures |t.PL| <= |w| && IsMin(Rest(w, t), t.W[|t.P|])
    ensures Rest(w, t.(P := t.P + [|t.W|])) == Minus(Rest(w, t), t.W[|t.P|])
  {
    hide IsMin, BalancedForAll, Remaining, Sorted;
    TakeNode(w, t.W, |t.PL|, |t.P|);
  }

  lemma ChosenLeaf(a: seq<nat>, w: seq<nat>, t: Tree, k: nat, extra: nat)
    requires Building(a, w, t, k, extra) && |t.PL| < |w| && (|t.P| < |t.W| ==> w[|t.PL|] <= t.W[|t.P|])
    ensures |t.P| <= |t.W| && IsMin(Rest(w, t), w[|t.PL|])
    ensures Rest(w, t.(PL := t.PL + [|t.W|])) == Minus(Rest(w, t), w[|t.PL|])
  {
    hide IsMin, BalancedForAll, Remaining, Sorted;
    TakeLeaf(w, t.W, |t.PL|, |t.P|);
  }

  /** Which child the program takes: of a leaf and a node of equal weight the leaf. */
  ghost function Chosen(w: seq<nat>, t: Tree): Tree
    requires |t.PL| <= |w| && |t.P| <= |t.W|
  {
    if |t.PL| < |w| && (|t.P| < |t.W| ==> w[|t.PL|] <= t.W[|t.P|]) then t.(PL := t.PL + [|t.W|]) else t.(P := t.P + [|t.W|])
  }

  ghost function ChosenWeight(w: seq<nat>, t: Tree): nat
    requires |t.PL| <= |w| && |t.P| <= |t.W| && (|t.PL| < |w| || |t.P| < |t.W|)
  {
    if |Chosen(w, t).PL| > |t.PL| then w[|t.PL|] else t.W[|t.P|]
  }

  /** The next child of node `next`: the smaller of the first leaf and the first node left. */
  method Choose(a: array<nat>, root: nat, leaf: nat, next: nat, ghost w: seq<nat>, ghost t: Tree, ghost k: nat, ghost extra: nat)
    returns (v: nat, root': nat, leaf': nat, ghost t': Tree)
    requires Building(a[..], w, t, k, extra) && k < 2 && next == |t.W| && root == |t.P| && leaf == |t.PL| && next + 2 <= |w|
    modifies a
    ensures Building(a[..], w, t', k + 1, extra + v) && root' == |t'.P| && leaf' == |t'.PL| && t'.W == t.W
    ensures |t.PL| <= |w| && |t.P| <= |t.W| && |t'.PL| <= |w| && |t'.P| <= |t'.W| && a.Length == |w|
    ensures IsMin(Rest(w, t), v) && Rest(w, t') == Minus(Rest(w, t), v) && t' == Chosen(w, t)
    ensures (|t.PL| < |w| || |t.P| < |t.W|) && v == ChosenWeight(w, t)
    ensures forall i :: next <= i < a.Length ==> a[i] == old(a[i])
  {
    hide Building, IsMin, Rest;
    SomethingLeft(a[..], w, t, k, extra);
    LayoutOf(a[..], w, t, k, extra);
    if leaf >= a.Length || (root < next && a[root] < a[leaf]) {
      AddNode(a[..], w, t, k, extra);
      ChosenNode(a[..], w, t, k, extra);
      v := a[root];
      ghost var was := a[..];
      a[root] := next;
      assert a[..] == was[|t.P| := |t.W| as nat];
      t' := t.(P := t.P + [|t.W|]);
      root', leaf' := root + 1, leaf;
    } else {
      AddLeaf(a[..], w, t, k, extra);
      ChosenLeaf(a[..], w, t, k, extra);
      v := a[leaf];
      t' := t.(PL := t.PL + [|t.W|]);
      root', leaf' := root, leaf + 1;
    }
    LayoutOf(a[..], w, t', k + 1, extra + v);
  }

  lemma LayoutOf(a: seq<nat>, w: seq<nat>, t: Tree, k: nat, extra: nat)
    requires Building(a, w, t, k, extra)
    ensures |a| == |w| && |t.P| <= |t.W| < |w| && |t.PL| <= |w|
    ensures |t.P| < |t.W| ==> a[|t.P|] == t.W[|t.P|]
    ensures |t.PL| < |w| ==> a[|t.PL|] == w[|t.PL|]
    ensures |t.P| + |t.PL| == 2 * |t.W| + k
  {
  }

  function Sum(s: seq<nat>): nat { if s == [] then 0 else Sum(s[..|s| - 1]) + s[|s| - 1] }

  /** Between two nodes: the cost so far, and a bound that keeps the node weights ascending. */
  ghost predicate AtNode(a: seq<nat>, w: seq<nat>, t: Tree, last: nat) {
    && Building(a, w, t, 0, 0) && |t.P| < |t.W| && |t.PL| <= |w|
    && HuffmanCost(multiset(w)) == Sum(t.W) + HuffmanCost(Rest(w, t))
    && (forall y :: y in Rest(w, t) ==> last <= y) && t.W[|t.W| - 1] <= 2 * last
  }

  lemma CardRest(a: seq<nat>, w: seq<nat>, t: Tree, k: nat, extra: nat)
    requires Building(a, w, t, k, extra)
    ensures |t.P| <= |t.W| && |t.PL| <= |w| && |Rest(w, t)| == |w| - |t.W| - k
  {
    assert |w[|t.PL|..]| + |t.W[|t.P|..]| == |w| - |t.W| - k;
  }

  lemma SumPush(s: seq<nat>, x: nat)
    ensures Sum(s + [x]) == Sum(s) + x
  {
    assert (s + [x])[..|s|] == s;
  }

  lemma StillAbove(ms: multiset<nat>, x: nat, y: nat)
    requires IsMin(ms, x) && IsMin(Minus(ms, x), y)
    ensures forall z :: z in Merged(ms, x, y) ==> y <= z
  {
  }

  lemma MakeAtNode(a: seq<nat>, w: seq<nat>, t: Tree, last: nat)
    requires Building(a, w, t, 0, 0) && |t.P| < |t.W| && |t.PL| <= |w|
    requires HuffmanCost(multiset(w)) == Sum(t.W) + HuffmanCost(Rest(w, t))
    requires (forall y :: y in Rest(w, t) ==> last <= y) && t.W[|t.W| - 1] <= 2 * last
    ensures AtNode(a, w, t, last)
  {
  }

  lemma MinsAscend(ms: multiset<nat>, x: nat, y: nat, last: nat)
    requires IsMin(ms, x) && IsMin(Minus(ms, x), y) && forall z :: z in ms ==> last <= z
    ensures last <= x <= y
  {
    assert y in ms;
  }

  lemma RestWithNode(w: seq<nat>, t: Tree, t': Tree, x: nat, y: nat)
    requires |t.P| <= |t.W| && |t.PL| <= |w| && |t'.P| <= |t'.W| && |t'.PL| <= |w|
    requires Rest(w, t') == Minus(Minus(Rest(w, t), x), y)
    ensures Rest(w, t'.(W := t'.W + [x + y])) == Merged(Rest(w, t), x, y)
  {
    hide Minus, Remaining;
    NewNode(w, t'.W, |t'.PL|, |t'.P|, x + y);
  }

  lemma NodeBuilt(a: seq<nat>, w: seq<nat>, t: Tree, x: nat, bound: nat)
    requires Building(a, w, t, 2, x) && |t.W| + 2 <= |w| && t.W != [] && t.W[|t.W| - 1] <= bound <= x
    ensures |t.W| < |a| && |t.P| <= |t.W| && |t.PL| <= |w|
    ensures Building(a[|t.W| := x], w, t.(W := t.W + [x]), 0, 0)
  {
    hide BalancedForAll, Sorted;
    var n := |w|;
    NodeComplete(w, t.W, t.W + [x], t.W, t.W + [x], t.PL, t.P, |t.W|, x, n);
    NodeComplete(Copies(1, n), Copies(1, n), Copies(1, n), Copies(2, n), Copies(2, n), t.PL, t.P, |t.W|, 2, n);
    SortedPush(t.W, x);
  }

  lemma SortedPush(s: seq<nat>, x: nat)
    requires Sorted(s) && (s != [] ==> s[|s| - 1] <= x)
    ensures Sorted(s + [x])
  {
  }

  /** The first node: the two smallest leaves. */
  lemma FirstNode(a: seq<nat>, w: seq<nat>)
    requires |w| == |a| >= 2 && Sorted(w) && a == w
    ensures AtNode(a[0 := w[0] + w[1]], w, Tree([w[0] + w[1]], [], [0, 0]), w[1])
  {
    hide BalancedForAll, HuffmanCost, SumAt, SumAll, Building, Rest;
    var t0 := Tree([], [], []);
    EmptyTree(a, w);
    AddLeaf(a, w, t0, 0, 0);
    var t1 := Tree([], [], [0]);
    assert t1 == t0.(PL := t0.PL + [|t0.W| as nat]);
    AddLeaf(a, w, t1, 1, w[0]);
    var t2 := Tree([], [], [0, 0]);
    assert t2 == t1.(PL := t1.PL + [|t1.W| as nat]);
    FirstBuilt(a, w, w[0] + w[1]);
    FirstCost(w);
    SumOne(w[0] + w[1]);
    assert w[0] <= w[1];
  }

  lemma SumOne(x: nat)
    ensures Sum([x]) == x
  {
  }

  lemma EmptyTree(a: seq<nat>, w: seq<nat>)
    requires |w| == |a| >= 2 && Sorted(w) && a == w
    ensures Building(a, w, Tree([], [], []), 0, 0)
  {
    forall f: seq<nat> | |f| == |w|
      ensures Balanced(w, [], [], [], [], f, 0, 0)
      ensures Balanced(Copies(1, |w|), Copies(1, |w|), Copies(2, |w|), [], [], f, 0, 0)
    {
    }
  }

  lemma FirstBuilt(a: seq<nat>, w: seq<nat>, x: nat)
    requires |w| >= 2 && Building(a, w, Tree([], [], [0, 0]), 2, x)
    ensures |a| == |w| && Building(a[0 := x], w, Tree([x], [], [0, 0]), 0, 0)
  {
    var n := |w|;
    NodeComplete(w, [], [x], [], [x], [0, 0], [], 0, x, n);
    NodeComplete(Copies(1, n), Copies(1, n), Copies(1, n), Copies(2, n), Copies(2, n), [0, 0], [], 0, 2, n);
  }

  lemma FirstCost(w: seq<nat>)
    requires |w| >= 2 && Sorted(w)
    ensures
      var t := Tree([w[0] + w[1]], [], [0, 0]);
      && HuffmanCost(multiset(w)) == w[0] + w[1] + HuffmanCost(Rest(w, t))
      && forall y :: y in Rest(w, t) ==> w[1] <= y
  {
    hide *;
    var t := Tree([w[0] + w[1]], [], [0, 0]);
    var x, y := w[0], w[1];
    TwoLeaves(w);
    HuffmanStep(multiset(w), x, y);
    StillAbove(multiset(w), x, y);
  }

  lemma TwoLeaves(w: seq<nat>)
    requires |w| >= 2 && Sorted(w)
    ensures |multiset(w)| >= 2 && IsMin(multiset(w), w[0]) && IsMin(Minus(multiset(w), w[0]), w[1])
    ensures Rest(w, Tree([w[0] + w[1]], [], [0, 0])) == Merged(multiset(w), w[0], w[1])
  {
    hide IsMin, Remaining, Minus;
    TakeLeaf(w, [], 0, 0);
    TakeLeaf(w, [], 1, 0);
    AllRemaining(w);
    NewNode(w, [], 2, 0, w[0] + w[1]);
    assert [] + [w[0] + w[1]] == [w[0] + w[1]];
  }

  lemma AllRemaining(w: seq<nat>)
    ensures Remaining(w, [], 0, 0) == multiset(w)
  {
    assert w[0..] == w;
    var none: seq<nat> := [];
    assert none[0..] == none;
  }

  // ---- Weights that are paired from the smallest on ----

  /** No leaf weighs more than the first node, and there is an even number of leaves. */
  ghost predicate LeavesFirst(w: seq<nat>) { |w| >= 2 && |w| % 2 == 0 && w[|w| - 1] <= w[0] + w[1] }

  /** Then neighbours are paired: first all leaves, then the nodes in their order. */
  ghost predicate Paired(t: Tree, n: nat) {
    && (if |t.PL| < n then t.P == [] && |t.PL| == 2 * |t.W| else |t.PL| == n && n <= 2 * |t.W| && |t.P| == 2 * |t.W| - n)
    && (forall i :: 0 <= i < |t.PL| ==> t.PL[i] == i / 2)
    && (forall i :: 0 <= i < |t.P| ==> t.P[i] == n / 2 + i / 2)
  }

  lemma PairStep(w: seq<nat>, t: Tree, x: nat)
    requires LeavesFirst(w) && Sorted(w) && Paired(t, |w|) && 1 <= |t.W| && |t.W| + 1 < |w| && t.W[0] == w[0] + w[1]
    ensures |t.PL| <= |w| && |t.P| < |t.W|
    ensures |Chosen(w, t).PL| <= |w| && |Chosen(w, t).P| <= |t.W|
    ensures Paired(Chosen(w, Chosen(w, t)).(W := t.W + [x]), |w|)
  {
    hide Sorted;
    LastIsLargest(w);
    var n, m := |w|, |t.W|;
    assert 2 * m / 2 == m && (2 * m + 1) / 2 == m;
    if |t.PL| == n {
      assert n / 2 + (2 * m - n) / 2 == m && n / 2 + (2 * m - n + 1) / 2 == m;
    }
  }

  lemma LastIsLargest(w: seq<nat>)
    requires Sorted(w)
    ensures forall i :: 0 <= i < |w| ==> w[i] <= w[|w| - 1]
  {
  }

  // ---- The largest weight that is stored ----

  lemma {:induction false} SumOfLeaves(w: seq<nat>, parent: seq<nat>, f: seq<nat>)
    requires |parent| <= |w| && Within(parent, |f|) && forall i :: 0 <= i < |f| ==> f[i] == 1
    ensures SumAt(w, parent, f) == Sum(w[..|parent|])
  {
    if parent != [] {
      var n := |parent| - 1;
      SumOfLeaves(w, parent[..n], f);
      assert w[..|parent|] == w[..n] + [w[n]];
      SumPush(w[..n], w[n]);
    }
  }

  lemma {:induction false} SumOfTotals(totals: seq<nat>, f: seq<nat>, n: nat)
    requires n <= |totals| && n <= |f| && forall i :: 0 <= i < |f| ==> f[i] == 1
    ensures SumAll(totals, f, n) == Sum(totals[..n])
  {
    if n > 0 {
      SumOfTotals(totals, f, n - 1);
      assert totals[..n] == totals[..n - 1] + [totals[n - 1]];
      SumPush(totals[..n - 1], totals[n - 1]);
    }
  }

  /** The root weighs what the leaves weigh together, and no node weighs more: keys that fit 32 bits in sum never overflow. */
  lemma WeightsFit(w: seq<nat>, t: Tree)
    requires |w| >= 2 && |t.W| == |w| - 1 && |t.P| == |w| - 2 && |t.PL| == |w| && Sorted(t.W)
    requires BalancedForAll(w, t.W, t.W, t.PL, t.P, |w| - 1, 0, |w|)
    ensures forall i :: 0 <= i < |t.W| ==> t.W[i] <= Sum(w)
  {
    hide Sum, SumAt, SumAll;
    var n, ones := |w|, Copies(1, |w|);
    assert Balanced(w, t.W, t.W, t.PL, t.P, ones, n - 1, 0);
    SumOfLeaves(w, t.PL, ones);
    SumOfLeaves(t.W, t.P, ones);
    SumOfTotals(t.W, ones, n - 1);
    assert w[..n] == w && t.W[..n - 1] == t.W && t.W == t.W[..n - 2] + [t.W[n - 2]];
    SumPush(t.W[..n - 2], t.W[n - 2]);
    LastIsLargest(t.W);
  }

  lemma FirstPaired(w: seq<nat>)
    requires |w| >= 2
    ensures LeavesFirst(w) ==> Paired(Tree([w[0] + w[1]], [], [0, 0]), |w|)
  {
  }

  lemma AtNodeParts(a: seq<nat>, w: seq<nat>, t: Tree, last: nat)
    requires AtNode(a, w, t, last)
    ensures Building(a, w, t, 0, 0) && |t.P| < |t.W| && |t.PL| <= |w| == |a| && |t.W| < |w| && Sorted(t.W)
    ensures HuffmanCost(multiset(w)) == Sum(t.W) + HuffmanCost(Rest(w, t))
    ensures (forall y :: y in Rest(w, t) ==> last <= y) && t.W[|t.W| - 1] <= 2 * last
  {
  }

  /** Cell `next` is free once a child has been chosen. */
  lemma StoredBehind(a: seq<nat>, w: seq<nat>, t: Tree, k: nat, extra: nat, x: nat)
    requires Building(a, w, t, k, extra) && k >= 1
    ensures |t.W| < |a| && Building(a[|t.W| := x], w, t, k, extra)
  {
    hide BalancedForAll, Sorted;
  }

  /** With n - 1 nodes the tree is complete. */
  lemma BuiltTree(a: seq<nat>, w: seq<nat>, t: Tree, last: nat)
    requires AtNode(a, w, t, last) && |t.W| == |w| - 1
    ensures |a| == |w| && |t.P| == |w| - 2 && |t.PL| == |w| && a[..|w| - 2] == t.P && ParentsOk(t, |w| - 1)
    ensures BalancedForAll(w, t.W, t.W, t.PL, t.P, |w| - 1, 0, |w|)
    ensures BalancedForAll(Copies(1, |w|), Copies(1, |w|), Copies(2, |w|), t.PL, t.P, |w| - 1, 0, |w|)
    ensures HuffmanCost(multiset(w)) == Sum(t.W)
  {
    hide BalancedForAll, Sorted;
    CardRest(a, w, t, 0, 0);
  }
}
