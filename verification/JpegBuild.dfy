/** The first phase of the in-place algorithm: the tree is built (compositor/jpge.cpp:165-171). */
module JpegBuild {
  import opened Bits
  import opened Canonical
  import opened JpegMinimum
  import opened JpegMoffat
  import opened JpegHeight

  /** First phase of calculate_minimum_redundancy. */
  method BuildTree(a: array<nat>) returns (ghost t: Tree, ghost heights: seq<nat>)
    requires a.Length >= 2 && Sorted(a[..])
    modifies a
    ensures |t.W| == a.Length - 1 && |t.P| == a.Length - 2 && |t.PL| == a.Length
    ensures a[..a.Length - 2] == t.P && ParentsOk(t, a.Length - 1)
    ensures BalancedForAll(old(a[..]), t.W, t.W, t.PL, t.P, a.Length - 1, 0, a.Length)
    ensures BalancedForAll(Copies(1, a.Length), Copies(1, a.Length), Copies(2, a.Length), t.PL, t.P, a.Length - 1, 0, a.Length)
    ensures HuffmanCost(multiset(old(a[..]))) == Sum(t.W)
    ensures LeavesFirst(old(a[..])) ==> Paired(t, a.Length)
    ensures forall i :: 0 <= i < |t.W| ==> t.W[i] <= Sum(old(a[..]))
    ensures HeightsOk(t, heights) && heights[a.Length - 2] == TreeHeight(old(a[..]), [])
  {
    hide HeightsOk, AtHeights, TreeHeight, ChosenWeight, ChosenHeight, Max, Paired, Chosen, AtNode, Building, BalancedForAll, HuffmanCost, Rest, Sorted, IsMin, Merged, Minus, Sum, ParentsOk;
    ghost var w := a[..];
    FirstNode(a[..], w);
    a[0] := a[0] + a[1];
    assert a[..] == w[0 := w[0] + w[1]];
    t := Tree([w[0] + w[1]], [], [0, 0]);
    ghost var last := w[1];
    FirstPaired(w);
    heights := [1];
    FirstHeight(w);
    var root, leaf := 0, 2;
    for next := 1 to a.Length - 1
      invariant AtNode(a[..], w, t, last) && next == |t.W| && root == |t.P| && leaf == |t.PL|
      invariant t.W[0] == w[0] + w[1] && (LeavesFirst(w) ==> Paired(t, |w|)) && AtHeights(w, t, heights)
    {
      ghost var before := t;
      AtNodeParts(a[..], w, t, last);
      CardRest(a[..], w, t, 0, 0);
      HeightStep(w, t, heights);
      var x, y;
      ghost var t1, t2;
      x, root, leaf, t1 := Choose(a, root, leaf, next, w, t, 0, 0);
      StoredBehind(a[..], w, t1, 1, x, x);
      ghost var chosen := a[..];
      a[next] := x;
      assert a[..] == chosen[next := x];
      y, root, leaf, t2 := Choose(a, root, leaf, next, w, t1, 1, x);
      chosen := a[..];
      a[next] := a[next] + y;
      assert a[..] == chosen[next := x + y];
      heights := NextHeights(w, t, heights);
      ghost var built := t2.(W := t.W + [x + y]);
      NodeDone(chosen, a[..], w, t, t2, built, x, y, last);
      t := built;
      if LeavesFirst(w) { PairStep(w, before, x + y); }
      last := y;
    }
    AtNodeParts(a[..], w, t, last);
    BuiltTree(a[..], w, t, last);
    WeightsFit(w, t);
    LastHeight(w, t, heights);
  }

  /** The two nodes chosen become one, which is stored last. */
  lemma NodeDone(a: seq<nat>, a': seq<nat>, w: seq<nat>, t: Tree, t2: Tree, t': Tree, x: nat, y: nat, last: nat)
    requires t2.W == t.W != [] && |t.W| + 2 <= |w| == |a|
    requires |t.P| <= |t.W| && |t.PL| <= |w| && |t2.P| <= |t.W| && |t2.PL| <= |w| && t.W[|t.W| - 1] <= 2 * last
    requires |Rest(w, t)| >= 2 && HuffmanCost(multiset(w)) == Sum(t.W) + HuffmanCost(Rest(w, t))
    requires forall z :: z in Rest(w, t) ==> last <= z
    requires IsMin(Rest(w, t), x) && IsMin(Minus(Rest(w, t), x), y) && Rest(w, t2) == Minus(Minus(Rest(w, t), x), y)
    requires Building(a, w, t2, 2, x + y)
    requires a' == a[|t.W| := x + y] && t'.W == t.W + [x + y] && t'.P == t2.P && t'.PL == t2.PL
    ensures AtNode(a', w, t', y)
  {
    hide Building, Rest, IsMin, Minus, Merged, HuffmanCost, Sum, AtNode;
    HuffmanStep(Rest(w, t), x, y);
    MinsAscend(Rest(w, t), x, y, last);
    NodeBuilt(a, w, t2, x + y, 2 * last);
    RestWithNode(w, t, t2, x, y);
    SumPush(t.W, x + y);
    StillAbove(Rest(w, t), x, y);
    assert t' == t2.(W := t.W + [x + y]);
    MakeAtNode(a', w, t', y);
  }
}
