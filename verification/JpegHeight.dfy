/** How long the longest code gets: Huffman's algorithm on two queues, with the tie rule of the program (compositor/jpge.cpp:165-171). */
module JpegHeight {
  import opened Bits
  import opened Canonical
  import opened JpegMinimum
  import opened JpegMoffat

  // ---- Two queues ----

  /** A tree that waits to be merged. */
  datatype Queued = Queued(weight: nat, height: nat)

  function Max(a: nat, b: nat): nat { if a < b then b else a }

  /** The lighter one of the first leaf and the first tree, the leaf if they weigh the same; and what is left. */
  function Pick(leaves: seq<nat>, trees: seq<Queued>): (r: (Queued, seq<nat>, seq<Queued>))
    requires |leaves| + |trees| > 0
    ensures |r.1| + |r.2| + 1 == |leaves| + |trees|
  {
    if |leaves| > 0 && (|trees| > 0 ==> leaves[0] <= trees[0].weight) then (Queued(leaves[0], 0), leaves[1..], trees)
    else (trees[0], leaves, trees[1..])
  }

  /** One turn: the two lightest are merged. */
  function Merge(leaves: seq<nat>, trees: seq<Queued>): (r: (seq<nat>, seq<Queued>))
    requires |leaves| + |trees| >= 2
    ensures |r.0| + |r.1| + 1 == |leaves| + |trees|
  {
    var (x, leaves1, trees1) := Pick(leaves, trees);
    var (y, leaves2, trees2) := Pick(leaves1, trees1);
    (leaves2, trees2 + [Queued(x.weight + y.weight, 1 + Max(x.height, y.height))])
  }

  /** The height of the tree that comes out when the two lightest are merged until one is left. */
  function TreeHeight(leaves: seq<nat>, trees: seq<Queued>): nat
    requires |leaves| + |trees| > 0
    decreases |leaves| + |trees|
  {
    if |leaves| + |trees| == 1 then (if leaves == [] then trees[0].height else 0)
    else
      var (leaves', trees') := Merge(leaves, trees);
      TreeHeight(leaves', trees')
  }

  lemma OneTurn(leaves: seq<nat>, trees: seq<Queued>)
    requires |leaves| + |trees| >= 2
    ensures TreeHeight(leaves, trees) == TreeHeight(Merge(leaves, trees).0, Merge(leaves, trees).1)
  {
    hide Merge;
  }

  /** The turn in which leaf w is merged with the only tree. */
  lemma MergeWithTree(w: nat, rest: seq<nat>, t: Queued)
    requires rest != [] ==> t.weight < rest[0]
    ensures Merge([w] + rest, [t]) == (rest, [Queued(w + t.weight, 1 + t.height)])
  {
    var leaves, trees, none: seq<Queued> := [w] + rest, [t], [];
    assert leaves[1..] == rest && trees[1..] == none;
    if w <= t.weight {
      assert Pick(leaves, trees) == (Queued(w, 0), rest, trees);
      assert Pick(rest, trees) == (t, rest, none);
    } else {
      assert Pick(leaves, trees) == (t, leaves, none);
      assert Pick(leaves, none) == (Queued(w, 0), rest, none);
    }
    assert none + [Queued(w + t.weight, 1 + t.height)] == [Queued(w + t.weight, 1 + t.height)];
  }

  // ---- Sorting, for a height of weights in any order ----

  function Inserted(x: nat, s: seq<nat>): (r: seq<nat>)
    requires Sorted(s)
    ensures Sorted(r) && multiset(r) == multiset(s) + multiset{x}
  {
    if s == [] || s[|s| - 1] <= x then
      PushLast(s, x);
      s + [x]
    else
      FrontSorted(s);
      var r := Inserted(x, s[..|s| - 1]);
      PushBack(r, s, x);
      r + [s[|s| - 1]]
  }

  lemma PushLast(s: seq<nat>, x: nat)
    requires Sorted(s) && (s != [] ==> s[|s| - 1] <= x)
    ensures Sorted(s + [x]) && multiset(s + [x]) == multiset(s) + multiset{x}
  {
  }

  lemma FrontSorted(s: seq<nat>)
    requires Sorted(s) && s != []
    ensures Sorted(s[..|s| - 1])
  {
  }

  lemma PushBack(r: seq<nat>, s: seq<nat>, x: nat)
    requires s != [] && Sorted(s) && Sorted(r) && x < s[|s| - 1] && multiset(r) == multiset(s[..|s| - 1]) + multiset{x}
    ensures Sorted(r + [s[|s| - 1]]) && multiset(r + [s[|s| - 1]]) == multiset(s) + multiset{x}
  {
    hide Sorted;
    BelowLast(r, s, x);
    PushLast(r, s[|s| - 1]);
    assert s == s[..|s| - 1] + [s[|s| - 1]];
  }

  lemma BelowLast(r: seq<nat>, s: seq<nat>, x: nat)
    requires s != [] && Sorted(s) && x < s[|s| - 1] && multiset(r) == multiset(s[..|s| - 1]) + multiset{x}
    ensures r != [] ==> r[|r| - 1] <= s[|s| - 1]
  {
    if r != [] { assert r[|r| - 1] in multiset(r); }
  }

  function SortedCopy(s: seq<nat>): (r: seq<nat>)
    ensures Sorted(r) && multiset(r) == multiset(s)
  {
    if s == [] then [] else
      assert s == s[..|s| - 1] + [s[|s| - 1]];
      Inserted(s[|s| - 1], SortedCopy(s[..|s| - 1]))
  }

  lemma LastOfSorted(s: seq<nat>)
    requires Sorted(s) && s != []
    ensures
      var front, x := s[..|s| - 1], s[|s| - 1];
      s == front + [x] && Sorted(front) && x in multiset(s) && (forall y :: y in multiset(s) ==> y <= x) && multiset(front) == multiset(s) - multiset{x}
  {
    assert s == s[..|s| - 1] + [s[|s| - 1]];
  }

  lemma SameSize(s: seq<nat>, m: multiset<nat>)
    requires multiset(s) == m
    ensures |s| == |m|
  {
  }

  lemma SameLast(a: seq<nat>, b: seq<nat>, m: multiset<nat>)
    requires Sorted(a) && Sorted(b) && multiset(a) == m && multiset(b) == m && a != [] && b != []
    ensures a[|a| - 1] == b[|b| - 1]
  {
    hide Sorted;
    LastOfSorted(a);
    LastOfSorted(b);
  }

  /** There is one sorted sequence for a multiset. */
  lemma {:induction false} SortedSame(a: seq<nat>, b: seq<nat>, m: multiset<nat>)
    requires Sorted(a) && Sorted(b) && multiset(a) == m && multiset(b) == m
    ensures a == b
    decreases |a|
  {
    hide *;
    SameSize(a, m);
    SameSize(b, m);
    if a != [] {
      SameLast(a, b, m);
      LastOfSorted(a);
      LastOfSorted(b);
      SortedSame(a[..|a| - 1], b[..|b| - 1], m - multiset{a[|a| - 1]});
    }
  }

  // ---- The queues of the in-place algorithm ----

  ghost function Queue(t: Tree, heights: seq<nat>): (q: seq<Queued>)
    requires |t.P| <= |t.W| == |heights|
    ensures |q| == |t.W| - |t.P|
  {
    seq(|t.W| - |t.P|, i requires 0 <= i < |t.W| - |t.P| => Queued(t.W[|t.P| + i], heights[|t.P| + i]))
  }

  ghost function ChosenHeight(w: seq<nat>, t: Tree, heights: seq<nat>): nat
    requires |t.PL| <= |w| && |t.P| <= |t.W| == |heights|
  {
    if |Chosen(w, t).PL| > |t.PL| || |t.P| == |t.W| then 0 else heights[|t.P|]
  }

  lemma ChosenIsPicked(w: seq<nat>, t: Tree, heights: seq<nat>)
    requires |t.PL| <= |w| && |t.P| <= |t.W| == |heights| && (|t.PL| < |w| || |t.P| < |t.W|)
    ensures
      var t' := Chosen(w, t);
      && |t'.PL| <= |w| && |t'.P| <= |t'.W| == |heights|
      && Pick(w[|t.PL|..], Queue(t, heights))
         == (Queued(ChosenWeight(w, t), ChosenHeight(w, t, heights)), w[|t'.PL|..], Queue(t', heights))
  {
    var t' := Chosen(w, t);
    if |t'.PL| > |t.PL| {
      assert w[|t.PL|..][1..] == w[|t'.PL|..];
      assert Queue(t', heights) == Queue(t, heights);
    } else {
      assert Queue(t, heights)[1..] == Queue(t', heights);
    }
  }

  // ---- Heights of the nodes ----

  /** Every node is higher than its children, and by one higher than one of them. */
  ghost predicate HeightsOk(t: Tree, heights: seq<nat>) {
    && |heights| == |t.W| && Within(t.P, |t.W|) && Within(t.PL, |t.W|) && |t.P| <= |t.W|
    && (forall v :: 0 <= v < |heights| ==> heights[v] >= 1)
    && (forall i :: 0 <= i < |t.P| ==> heights[i] < heights[t.P[i]])
    && (forall v: nat {:trigger Reached(t, heights, v)} :: v < |heights| ==> Reached(t, heights, v))
  }

  /** Node v has a child that is one less high. */
  ghost predicate Reached(t: Tree, heights: seq<nat>, v: nat)
    requires |t.P| <= |heights|
  {
    v < |heights| && if heights[v] == 1 then v in t.PL else exists i :: 0 <= i < |t.P| && t.P[i] == v && heights[v] == heights[i] + 1
  }

  /** So far the two queues are those of the algorithm on sequences. */
  ghost predicate AtHeights(w: seq<nat>, t: Tree, heights: seq<nat>) {
    && HeightsOk(t, heights) && |t.PL| <= |w| && |t.P| < |t.W| && |w| > 0
    && TreeHeight(w, []) == TreeHeight(w[|t.PL|..], Queue(t, heights))
  }

  lemma FirstHeight(w: seq<nat>)
    requires |w| >= 2
    ensures AtHeights(w, Tree([w[0] + w[1]], [], [0, 0]), [1])
  {
    var t := Tree([w[0] + w[1]], [], [0, 0]);
    assert w[1..][1..] == w[2..];
    assert Queue(t, [1]) == [] + [Queued(w[0] + w[1], 1)];
    assert Reached(t, [1], 0);
  }

  /** With the height of the next node, one more than that of the higher one of its children. */
  ghost function NextHeights(w: seq<nat>, t: Tree, heights: seq<nat>): (h: seq<nat>)
    requires |t.PL| <= |w| && |t.P| <= |t.W| == |heights| && |Chosen(w, t).PL| <= |w| && |Chosen(w, t).P| <= |t.W|
    ensures |h| == |heights| + 1
  {
    heights + [1 + Max(ChosenHeight(w, t, heights), ChosenHeight(w, Chosen(w, t), heights))]
  }


  lemma HeightStep(w: seq<nat>, t: Tree, heights: seq<nat>)
    requires AtHeights(w, t, heights) && |w| - |t.PL| + |t.W| - |t.P| >= 2
    ensures |Chosen(w, t).PL| <= |w| && |Chosen(w, t).P| <= |t.W| && Chosen(w, t).W == t.W
    ensures |Chosen(w, t).PL| < |w| || |Chosen(w, t).P| < |t.W|
    ensures
      var t1 := Chosen(w, t);
      var t2 := Chosen(w, t1);
      var next := t2.(W := t.W + [ChosenWeight(w, t) + ChosenWeight(w, t1)]);
      |t.W| == |heights| && AtHeights(w, next, NextHeights(w, t, heights))
  {
    hide HeightsOk, TreeHeight, Merge, Pick, Max, Queue, ChosenHeight, ChosenWeight;
    var t1 := Chosen(w, t);
    var t2 := Chosen(w, t1);
    HeightParts(t, heights);
    ChosenIsPicked(w, t, heights);
    ChosenIsPicked(w, t1, heights);
    var x, y := ChosenWeight(w, t), ChosenWeight(w, t1);
    var hx, hy := ChosenHeight(w, t, heights), ChosenHeight(w, t1, heights);
    var next, after := t2.(W := t.W + [x + y]), heights + [1 + Max(hx, hy)];
    MergePicked(w[|t.PL|..], Queue(t, heights), Queued(x, hx), w[|t1.PL|..], Queue(t1, heights), Queued(y, hy), w[|t2.PL|..], Queue(t2, heights));
    OneTurn(w[|t.PL|..], Queue(t, heights));
    QueuePush(t2, heights, x + y, 1 + Max(hx, hy));
    HeightsStep(w, t, heights, x + y);
  }

  /** With the last node the height of the tree is known. */
  lemma LastHeight(w: seq<nat>, t: Tree, heights: seq<nat>)
    requires AtHeights(w, t, heights) && |w| >= 2 && |t.W| == |w| - 1 && |t.P| == |w| - 2 && |t.PL| == |w|
    ensures HeightsOk(t, heights) && heights[|w| - 2] == TreeHeight(w, [])
  {
    assert w[|w|..] == [] && Queue(t, heights) == [Queued(t.W[|w| - 2], heights[|w| - 2])];
  }

  lemma HeightParts(t: Tree, heights: seq<nat>)
    requires HeightsOk(t, heights)
    ensures |heights| == |t.W| && |t.P| <= |t.W|
  {
  }

  /** One turn, from what is picked first and second. */
  lemma MergePicked(l: seq<nat>, q: seq<Queued>, x: Queued, l1: seq<nat>, q1: seq<Queued>, y: Queued, l2: seq<nat>, q2: seq<Queued>)
    requires |l| + |q| >= 2 && Pick(l, q) == (x, l1, q1) && Pick(l1, q1) == (y, l2, q2)
    ensures Merge(l, q) == (l2, q2 + [Queued(x.weight + y.weight, 1 + Max(x.height, y.height))])
  {
    hide Pick, Max;
  }

  lemma QueuePush(t: Tree, heights: seq<nat>, x: nat, h: nat)
    requires |t.P| <= |t.W| == |heights|
    ensures Queue(t.(W := t.W + [x]), heights + [h]) == Queue(t, heights) + [Queued(x, h)]
  {
  }

  lemma HeightsStep(w: seq<nat>, t: Tree, heights: seq<nat>, x: nat)
    requires HeightsOk(t, heights) && |t.PL| <= |w| && |w| - |t.PL| + |t.W| - |t.P| >= 2
    ensures |Chosen(w, t).PL| <= |w| && |Chosen(w, t).P| <= |Chosen(w, t).W| == |heights|
    ensures
      var t1 := Chosen(w, t);
      HeightsOk(Chosen(w, t1).(W := t.W + [x]), heights + [1 + Max(ChosenHeight(w, t, heights), ChosenHeight(w, t1, heights))])
  {
    var t1 := Chosen(w, t);
    var t2 := Chosen(w, t1);
    var h, n := 1 + Max(ChosenHeight(w, t, heights), ChosenHeight(w, t1, heights)), |heights|;
    var next, after := t2.(W := t.W + [x]), heights + [h];
    forall v: nat | v < |after| ensures Reached(next, after, v) {
      if v < n {
        assert Reached(t, heights, v);
        StillReached(t, heights, next, after, v);
      } else {
        NewReached(w, t, heights, x);
      }
    }
  }

  lemma StillReached(t: Tree, heights: seq<nat>, t': Tree, heights': seq<nat>, v: nat)
    requires |t.P| <= |heights| && |t'.P| <= |heights'| && Reached(t, heights, v)
    requires t.P <= t'.P && t.PL <= t'.PL && heights <= heights'
    ensures Reached(t', heights', v)
  {
  }

  lemma NewReached(w: seq<nat>, t: Tree, heights: seq<nat>, x: nat)
    requires HeightsOk(t, heights) && |t.PL| <= |w| && |w| - |t.PL| + |t.W| - |t.P| >= 2
    ensures |Chosen(w, t).PL| <= |w| && |Chosen(w, t).P| <= |Chosen(w, t).W| == |heights|
    ensures
      var t1 := Chosen(w, t);
      var h := 1 + Max(ChosenHeight(w, t, heights), ChosenHeight(w, t1, heights));
      |Chosen(w, t1).P| <= |heights| && Reached(Chosen(w, t1).(W := t.W + [x]), heights + [h], |heights|)
  {
    var t1 := Chosen(w, t);
    var t2 := Chosen(w, t1);
    var n, hx, hy := |heights|, ChosenHeight(w, t, heights), ChosenHeight(w, t1, heights);
    var after := heights + [1 + Max(hx, hy)];
    if hx == 0 && hy == 0 {
      assert t1.PL[|t.PL|] == n && t2.PL[|t.PL|] == n;
    } else if hx >= hy {
      assert t2.P[|t.P|] == n && after[n] == after[|t.P|] + 1;
    } else {
      assert t2.P[|t1.P|] == n && after[n] == after[|t1.P|] + 1;
    }
  }
}
