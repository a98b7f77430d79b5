/**
 * The decoder's Huffman tables: a table of 256 entries for the first eight bits of the stream, with extra bits
 * packed in where they fit, and a tree for longer codes (compositor/jpgd.cpp:2213-2350, 492-562).
 */
module JpegLookup {
  import opened Bits
  import opened PrefixCode
  import opened Canonical
  import opened JpegBits
  import opened WordBits
  import opened JpegReader
  import opened JpegTables
  import opened JpegTreeSize

  // ---- Nodes of the tree ----

  /** Index of a bit string in a list, or the length of the list. */
  function Find(list: seq<BitString>, c: BitString): (k: nat)
    ensures k <= |list| && (k < |list| ==> list[k] == c)
    ensures k == |list| ==> c !in list
  {
    if list == [] then 0
    else
      var k := Find(list[..|list| - 1], c);
      if k < |list| - 1 then k else if list[|list| - 1] == c then |list| - 1 else |list|
  }

  /** Index of a code that the bits begin with, or the length of the list. */
  function FindPrefix(list: seq<BitString>, c: BitString): (k: nat)
    ensures k <= |list| && (k < |list| ==> list[k] <= c)
    ensures k == |list| ==> forall i :: 0 <= i < |list| ==> !(list[i] <= c)
  {
    if list == [] then 0
    else
      var k := FindPrefix(list[..|list| - 1], c);
      if k < |list| - 1 then k else if list[|list| - 1] <= c then |list| - 1 else |list|
  }

  lemma FindAppend(list: seq<BitString>, d: BitString, c: BitString)
    ensures Find(list + [d], c) == if Find(list, c) < |list| then Find(list, c) else if d == c then |list| else |list| + 1
  {
    assert (list + [d])[..|list|] == list;
  }

  lemma FindPrefixAppend(list: seq<BitString>, d: BitString, c: BitString)
    ensures FindPrefix(list + [d], c)
         == if FindPrefix(list, c) < |list| then FindPrefix(list, c) else if d <= c then |list| else |list| + 1
  {
    assert (list + [d])[..|list|] == list;
  }

  /** How a node appears in the tables: the negative number of its first cell. */
  function Entry(m: nat): int { -(2 * m + 1) }

  /** The cell of a node for a bit: the lower one for 1. */
  function CellOf(m: nat, bit: bool): nat { if bit then 2 * m else 2 * m + 1 }

  /** What the tree must hold at the end of a path: a node, a symbol, or nothing. */
  ghost function TreeValue(nodes: seq<BitString>, codes: seq<BitString>, val: seq<Byte>, path: BitString): int
    requires |codes| <= |val|
  {
    var m := Find(nodes, path);
    if m < |nodes| then Entry(m)
    else
      var p := Find(codes, path);
      if p < |codes| then val[p] else 0
  }

  /** The same for the first eight bits, where a symbol with a shorter code fills several entries. */
  ghost function LookValue(nodes: seq<BitString>, codes: seq<BitString>, val: seq<Byte>, path: BitString): int
    requires |codes| <= |val|
  {
    var m := Find(nodes, path);
    if m < |nodes| then Entry(m)
    else
      var p := FindPrefix(codes, path);
      if p < |codes| then val[p] else 0
  }

  /** v & ((1 << n) - 1). */
  function Mask(v: nat, n: nat): (r: nat)
    ensures r < Pow2(n)
  {
    if n == 0 then 0 else 2 * Mask(v / 2, n - 1) + v % 2
  }

  /** A symbol with the number of bits to fetch and, if they are among the eight, its extra bits. */
  function Pack(symbol: nat, size: nat, v: nat): nat {
    var extra := symbol % 16;
    if extra != 0 && size + extra <= 8 then
      symbol + 0x8000 + Mask(Shr(v, 8 - (size + extra)), extra) * 65536 + (size + extra) * 256
    else symbol + size * 256
  }

  ghost function LookValue2(nodes: seq<BitString>, codes: seq<BitString>, val: seq<Byte>, v: nat): int
    requires |codes| <= |val|
  {
    var path := CodeBits(v, 8);
    var m := Find(nodes, path);
    if m < |nodes| then Entry(m)
    else
      var p := FindPrefix(codes, path);
      if p < |codes| then Pack(val[p], |codes[p]|, v) else 0
  }

  // ---- The state of the construction ----

  /** Nodes are proper prefixes, of eight bits or more, of codes of the table; no node without those above it. */
  ghost predicate NodesOk(nodes: seq<BitString>, all: seq<BitString>) {
    && (forall m :: 0 <= m < |nodes| ==> 8 <= |nodes[m]| < 16 && Inside(nodes[m], all))
    && (forall m, k :: 0 <= m < |nodes| && 8 <= k < |nodes[m]| ==> nodes[m][..k] in nodes)
    && (forall m, k :: 0 <= m < k < |nodes| ==> nodes[m] != nodes[k])
  }

  /** The path leads to a code and beyond it is not yet. */
  ghost predicate Inside(path: BitString, all: seq<BitString>) {
    exists p :: 0 <= p < |all| && path < all[p]
  }

  /** Every long code entered has all its nodes. */
  ghost predicate Linked(nodes: seq<BitString>, codes: seq<BitString>) {
    forall p, k :: 0 <= p < |codes| && 8 <= k < |codes[p]| ==> codes[p][..k] in nodes
  }

  ghost predicate TreeOk(tree: seq<int>, nodes: seq<BitString>, codes: seq<BitString>, val: seq<Byte>) {
    && |tree| == 512 && |codes| <= |val|
    && (forall m: nat, bit: bool :: m < |nodes| && CellOf(m, bit) < 512 ==>
          tree[CellOf(m, bit)] == TreeValue(nodes, codes, val, nodes[m] + [bit]))
    && (forall i :: 2 * |nodes| <= i < 512 ==> tree[i] == 0)
  }

  ghost predicate LookOk(look_up: seq<int>, look_up2: seq<int>, nodes: seq<BitString>, codes: seq<BitString>, val: seq<Byte>) {
    && |look_up| == 256 == |look_up2| && |codes| <= |val|
    && forall v: nat :: v < 256 ==>
         && look_up[v] == LookValue(nodes, codes, val, CodeBits(v, 8))
         && look_up2[v] == LookValue2(nodes, codes, val, v)
  }

  /** The codes of a table as a list without prefixes of one another, none longer than 16. */
  ghost predicate CodeList(all: seq<BitString>, val: seq<Byte>) {
    && |all| == |val| <= 256 && PrefixFree(all)
    && forall p :: 0 <= p < |all| ==> 1 <= |all[p]| <= 16
  }

  lemma Comparable(all: seq<BitString>, val: seq<Byte>, a: nat, b: nat)
    requires CodeList(all, val) && a < |all| && b < |all| && all[a] <= all[b]
    ensures a == b
  {
    assert Present(all, a) && Present(all, b);
  }

  lemma CommonExtension(all: seq<BitString>, val: seq<Byte>, a: nat, b: nat, c: BitString)
    requires CodeList(all, val) && a < |all| && b < |all| && all[a] <= c && all[b] <= c
    ensures a == b
  {
    PrefixesCompare(all[a], all[b], c);
    if all[a] <= all[b] { Comparable(all, val, a, b); } else { Comparable(all, val, b, a); }
  }

  /** No code lies at or above a node. */
  lemma NotBelowCode(nodes: seq<BitString>, all: seq<BitString>, val: seq<Byte>, m: nat, a: nat)
    requires CodeList(all, val) && NodesOk(nodes, all) && m < |nodes| && a < |all|
    ensures !(all[a] <= nodes[m])
  {
    var p :| 0 <= p < |all| && nodes[m] < all[p];
    if all[a] <= nodes[m] {
      assert all[a] <= all[p];
      Comparable(all, val, a, p);
    }
  }

  lemma NoNodeThere(nodes: seq<BitString>, all: seq<BitString>, val: seq<Byte>, p: nat)
    requires CodeList(all, val) && NodesOk(nodes, all) && p < |all|
    ensures Find(nodes, all[p]) == |nodes|
  {
    var m := Find(nodes, all[p]);
    if m < |nodes| {
      NotBelowCode(nodes, all, val, m, p);
      assert false;
    }
  }

  /** Everything entered so far: the first p codes. */
  ghost predicate Entered(look_up: seq<int>, look_up2: seq<int>, tree: seq<int>, nodes: seq<BitString>,
                          all: seq<BitString>, val: seq<Byte>, p: nat) {
    && p <= |all| && CodeList(all, val) && NodesOk(nodes, all)
    && Linked(nodes, all[..p])
    && TreeOk(tree, nodes, all[..p], val)
    && LookOk(look_up, look_up2, nodes, all[..p], val)
  }

  lemma NothingEntered(look_up: seq<int>, look_up2: seq<int>, tree: seq<int>, all: seq<BitString>, val: seq<Byte>)
    requires CodeList(all, val) && |look_up| == 256 == |look_up2| && |tree| == 512
    requires forall i :: 0 <= i < 256 ==> look_up[i] == 0 == look_up2[i]
    requires forall i :: 0 <= i < 512 ==> tree[i] == 0
    ensures Entered(look_up, look_up2, tree, [], all, val, 0)
  {
    assert all[..0] == [];
  }

  // ---- Codes of at most eight bits ----

  /** The entries that belong to a code are a run of consecutive ones. */
  lemma EntriesOfCode(c: nat, n: nat, v: nat)
    requires n <= 8 && c < Pow2(n) && v < 256
    ensures CodeBits(c, n) <= CodeBits(v, 8) <==> c * Pow2(8 - n) <= v < (c + 1) * Pow2(8 - n)
  {
    hide CodeBits, Pow2;
    CodeBitsPrefix(v, 8, n);
    ShrInterval(v, 8 - n);
    var q := Shr(v, 8 - n);
    if CodeBits(c, n) <= CodeBits(v, 8) {
      WordPower();
      PrefixIsQuotient(c, n, v, 8);
    }
    if c * Pow2(8 - n) <= v < (c + 1) * Pow2(8 - n) {
      ShrBetween(v, 8 - n, c, c + 1);
      assert CodeBits(v, 8)[..n] == CodeBits(c, n);
    }
  }

  /** The entry of a code that has just come in. */
  lemma ShortEntry(nodes: seq<BitString>, all: seq<BitString>, val: seq<Byte>, p: nat, v: nat)
    requires CodeList(all, val) && NodesOk(nodes, all) && p < |all| && |all[p]| <= 8 && v < 256
    ensures all[p] <= CodeBits(v, 8) ==>
      && LookValue(nodes, all[..p + 1], val, CodeBits(v, 8)) == val[p]
      && LookValue2(nodes, all[..p + 1], val, v) == Pack(val[p], |all[p]|, v)
    ensures !(all[p] <= CodeBits(v, 8)) ==>
      && LookValue(nodes, all[..p + 1], val, CodeBits(v, 8)) == LookValue(nodes, all[..p], val, CodeBits(v, 8))
      && LookValue2(nodes, all[..p + 1], val, v) == LookValue2(nodes, all[..p], val, v)
  {
    hide CodeBits, Pack, CodeList, NodesOk;
    var path := CodeBits(v, 8);
    assert all[..p + 1] == all[..p] + [all[p]];
    FindPrefixAppend(all[..p], all[p], path);
    if all[p] <= path {
      var m := Find(nodes, path);
      if m < |nodes| { NotBelowCode(nodes, all, val, m, p); }
      var q := FindPrefix(all[..p], path);
      if q < p { CommonExtension(all, val, q, p, path); }
    }
  }

  /** A short code does not show up in the tree. */
  lemma ShortCodeTree(tree: seq<int>, nodes: seq<BitString>, all: seq<BitString>, val: seq<Byte>, p: nat)
    requires CodeList(all, val) && NodesOk(nodes, all) && p < |all| && |all[p]| <= 8
    requires TreeOk(tree, nodes, all[..p], val) && Linked(nodes, all[..p])
    ensures TreeOk(tree, nodes, all[..p + 1], val) && Linked(nodes, all[..p + 1])
  {
    hide PrefixFree;
    assert all[..p + 1] == all[..p] + [all[p]];
    forall m: nat, bit: bool | m < |nodes| && CellOf(m, bit) < 512
      ensures tree[CellOf(m, bit)] == TreeValue(nodes, all[..p + 1], val, nodes[m] + [bit])
    {
      FindAppend(all[..p], all[p], nodes[m] + [bit]);
    }
  }

  // ---- Longer codes ----

  lemma PrefixOfNode(nodes: seq<BitString>, all: seq<BitString>, c: BitString, k: nat)
    requires NodesOk(nodes, all) && 8 <= k < |c|
    ensures c in nodes ==> c[..k] in nodes
  {
  }

  lemma PrefixOfCode(nodes: seq<BitString>, codes: seq<BitString>, c: BitString, k: nat)
    requires Linked(nodes, codes) && 8 <= k < |c|
    ensures c in codes ==> c[..k] in nodes
  {
  }

  /** A bit string on the way to a code is not an earlier code. */
  lemma NoEarlierCode(all: seq<BitString>, val: seq<Byte>, p: nat, d: BitString)
    requires CodeList(all, val) && p < |all| && d <= all[p]
    ensures Find(all[..p], d) == p
  {
    var q := Find(all[..p], d);
    if q < p {
      Comparable(all, val, q, p);
      assert false;
    }
  }

  /** A new node: its cells are empty, and nothing else changes in the tree. */
  lemma NewNodeTree(tree: seq<int>, nodes: seq<BitString>, all: seq<BitString>, val: seq<Byte>, p: nat, d: BitString)
    requires CodeList(all, val) && NodesOk(nodes, all) && p < |all| && Linked(nodes, all[..p])
    requires TreeOk(tree, nodes, all[..p], val) && 8 <= |d| && d < all[p] && d !in nodes
    requires |d| > 8 ==> d[..|d| - 1] in nodes
    ensures forall m: nat, bit: bool :: m < |nodes| && CellOf(m, bit) < 512 && nodes[m] + [bit] != d ==>
      tree[CellOf(m, bit)] == TreeValue(nodes + [d], all[..p], val, nodes[m] + [bit])
    ensures forall bit: bool :: TreeValue(nodes + [d], all[..p], val, d + [bit]) == 0
  {
    hide CodeList;
    forall m: nat, bit: bool | m < |nodes| && CellOf(m, bit) < 512 && nodes[m] + [bit] != d
      ensures tree[CellOf(m, bit)] == TreeValue(nodes + [d], all[..p], val, nodes[m] + [bit])
    {
      FindAppend(nodes, d, nodes[m] + [bit]);
    }
    forall bit: bool ensures TreeValue(nodes + [d], all[..p], val, d + [bit]) == 0 {
      var c := d + [bit];
      FindAppend(nodes, d, c);
      assert c[..|d|] == d;
      PrefixOfNode(nodes, all, c, |d|);
      PrefixOfCode(nodes, all[..p], c, |d|);
    }
  }

  lemma NewNodeOk(nodes: seq<BitString>, all: seq<BitString>, p: nat, d: BitString)
    requires NodesOk(nodes, all) && p < |all| && |all[p]| <= 16 && 8 <= |d| && d < all[p] && d !in nodes
    requires |d| > 8 ==> d[..|d| - 1] in nodes
    ensures NodesOk(nodes + [d], all)
  {
    var more := nodes + [d];
    forall m, k | 0 <= m < |more| && 8 <= k < |more[m]| ensures more[m][..k] in more {
      if m < |nodes| {
        assert nodes[m][..k] in nodes;
      } else {
        var up := d[..|d| - 1];
        var j := Find(nodes, up);
        assert k == |up| || nodes[j][..k] in nodes;
        assert d[..k] == up[..k];
      }
    }
  }

  lemma LinkedMore(nodes: seq<BitString>, codes: seq<BitString>, d: BitString)
    requires Linked(nodes, codes)
    ensures Linked(nodes + [d], codes)
  {
    forall p, k | 0 <= p < |codes| && 8 <= k < |codes[p]| ensures codes[p][..k] in nodes + [d] {
      assert codes[p][..k] in nodes;
    }
  }

  /** The entry for the first eight bits of a long code: its node, or nothing yet. */
  lemma LongEntry(look_up: seq<int>, look_up2: seq<int>, tree: seq<int>, nodes: seq<BitString>, all: seq<BitString>,
                  val: seq<Byte>, p: nat, v: nat)
    requires Entered(look_up, look_up2, tree, nodes, all, val, p) && p < |all| && |all[p]| > 8
    requires v < 256 && CodeBits(v, 8) == all[p][..8]
    ensures
      var m := Find(nodes, all[p][..8]);
      if m < |nodes| then look_up[v] == Entry(m) else look_up[v] == 0
  {
    hide CodeBits, TreeOk, Linked, NodesOk;
    var d := all[p][..8];
    var q := FindPrefix(all[..p], d);
    if q < p { assert all[q] <= all[p]; Comparable(all, val, q, p); }
  }

  lemma EightBitsUnique(v: nat, w: nat)
    requires v < 256 && w < 256 && CodeBits(v, 8) == CodeBits(w, 8)
    ensures v == w
  {
    hide CodeBits, Pow2;
    WordPower();
    CodeValueOfCodeBits(v, 8);
    CodeValueOfCodeBits(w, 8);
  }

  /** A new node for eight bits of a long code. */
  lemma FirstNode(look_up: seq<int>, look_up2: seq<int>, tree: seq<int>, nodes: seq<BitString>, all: seq<BitString>,
                  val: seq<Byte>, p: nat, v: nat)
    requires Entered(look_up, look_up2, tree, nodes, all, val, p) && p < |all| && |all[p]| > 8
    requires v < 256 && CodeBits(v, 8) == all[p][..8] && all[p][..8] !in nodes
    ensures Entered(look_up[v := Entry(|nodes|)], look_up2[v := Entry(|nodes|)], tree, nodes + [all[p][..8]], all, val, p)
  {
    hide CodeBits;
    var d := all[p][..8];
    NewNodeTree(tree, nodes, all, val, p, d);
    NewNodeOk(nodes, all, p, d);
    LinkedMore(nodes, all[..p], d);
    FirstNodeLook(look_up, look_up2, nodes, all[..p], val, d, v);
    FirstNodeTree(tree, nodes, all[..p], val, d);
  }

  lemma FirstNodeTree(tree: seq<int>, nodes: seq<BitString>, codes: seq<BitString>, val: seq<Byte>, d: BitString)
    requires TreeOk(tree, nodes, codes, val) && |d| == 8
    requires forall m :: 0 <= m < |nodes| ==> |nodes[m]| >= 8
    requires forall m: nat, bit: bool :: m < |nodes| && CellOf(m, bit) < 512 && nodes[m] + [bit] != d ==>
      tree[CellOf(m, bit)] == TreeValue(nodes + [d], codes, val, nodes[m] + [bit])
    requires forall bit: bool :: TreeValue(nodes + [d], codes, val, d + [bit]) == 0
    ensures TreeOk(tree, nodes + [d], codes, val)
  {
    hide TreeValue;
  }

  lemma FirstNodeLook(look_up: seq<int>, look_up2: seq<int>, nodes: seq<BitString>, codes: seq<BitString>,
                      val: seq<Byte>, d: BitString, v: nat)
    requires LookOk(look_up, look_up2, nodes, codes, val) && v < 256 && CodeBits(v, 8) == d && d !in nodes
    ensures LookOk(look_up[v := Entry(|nodes|)], look_up2[v := Entry(|nodes|)], nodes + [d], codes, val)
  {
    hide CodeBits, Pack;
    forall w: nat | w < 256
      ensures look_up[v := Entry(|nodes|)][w] == LookValue(nodes + [d], codes, val, CodeBits(w, 8))
      ensures look_up2[v := Entry(|nodes|)][w] == LookValue2(nodes + [d], codes, val, w)
    {
      FindAppend(nodes, d, CodeBits(w, 8));
      if w != v && CodeBits(w, 8) == d { EightBitsUnique(v, w); }
    }
  }

  /** The cell below a node on the way of a long code: the next node, or nothing yet. */
  lemma NextCell(tree: seq<int>, nodes: seq<BitString>, all: seq<BitString>, val: seq<Byte>, p: nat, m: nat, j: nat)
    requires CodeList(all, val) && NodesOk(nodes, all) && p < |all| && TreeOk(tree, nodes, all[..p], val)
    requires m < |nodes| && j + 1 < |all[p]| && nodes[m] == all[p][..j] && CellOf(m, all[p][j]) < 512
    ensures
      var k := Find(nodes, all[p][..j + 1]);
      tree[CellOf(m, all[p][j])] == if k < |nodes| then Entry(k) else 0
  {
    hide CodeList, NodesOk, Linked, TreeOk, Find, TreeValue;
    var d := all[p][..j + 1];
    assert d == nodes[m] + [all[p][j]];
    NoEarlierCode(all, val, p, d);
    TreeCell(tree, nodes, all[..p], val, m, all[p][j]);
    CellValue(nodes, all[..p], val, d);
  }

  lemma TreeCell(tree: seq<int>, nodes: seq<BitString>, codes: seq<BitString>, val: seq<Byte>, m: nat, bit: bool)
    requires TreeOk(tree, nodes, codes, val) && m < |nodes| && CellOf(m, bit) < 512
    ensures |tree| == 512 && |codes| <= |val| && tree[CellOf(m, bit)] == TreeValue(nodes, codes, val, nodes[m] + [bit])
  {
    hide TreeValue;
  }

  lemma CellValue(nodes: seq<BitString>, codes: seq<BitString>, val: seq<Byte>, d: BitString)
    requires |codes| <= |val| && Find(codes, d) == |codes|
    ensures TreeValue(nodes, codes, val, d) == if Find(nodes, d) < |nodes| then Entry(Find(nodes, d)) else 0
  {
    hide Find;
  }

  /** A new node further down. */
  lemma InnerNode(look_up: seq<int>, look_up2: seq<int>, tree: seq<int>, nodes: seq<BitString>, all: seq<BitString>,
                  val: seq<Byte>, p: nat, m: nat, j: nat)
    requires Entered(look_up, look_up2, tree, nodes, all, val, p) && p < |all|
    requires m < |nodes| && 8 <= j && j + 1 < |all[p]| && nodes[m] == all[p][..j] && CellOf(m, all[p][j]) < 512
    requires all[p][..j + 1] !in nodes
    ensures Entered(look_up, look_up2, tree[CellOf(m, all[p][j]) := Entry(|nodes|)], nodes + [all[p][..j + 1]], all, val, p)
  {
    hide CodeBits;
    var d := all[p][..j + 1];
    assert d[..|d| - 1] == nodes[m] && d == nodes[m] + [all[p][j]];
    NewNodeTree(tree, nodes, all, val, p, d);
    NewNodeOk(nodes, all, p, d);
    LinkedMore(nodes, all[..p], d);
    InnerNodeLook(look_up, look_up2, nodes, all[..p], val, d);
    InnerNodeTree(tree, nodes, all[..p], val, d, m, all[p][j]);
  }

  lemma InnerNodeLook(look_up: seq<int>, look_up2: seq<int>, nodes: seq<BitString>, codes: seq<BitString>,
                      val: seq<Byte>, d: BitString)
    requires LookOk(look_up, look_up2, nodes, codes, val) && |d| > 8
    ensures LookOk(look_up, look_up2, nodes + [d], codes, val)
  {
    hide CodeBits, Pack;
    forall w: nat | w < 256
      ensures look_up[w] == LookValue(nodes + [d], codes, val, CodeBits(w, 8))
      ensures look_up2[w] == LookValue2(nodes + [d], codes, val, w)
    {
      FindAppend(nodes, d, CodeBits(w, 8));
    }
  }

  lemma InnerNodeTree(tree: seq<int>, nodes: seq<BitString>, codes: seq<BitString>, val: seq<Byte>, d: BitString, m: nat, bit: bool)
    requires TreeOk(tree, nodes, codes, val) && m < |nodes| && CellOf(m, bit) < 512 && d == nodes[m] + [bit] && d !in nodes
    requires forall i, k :: 0 <= i < k < |nodes| ==> nodes[i] != nodes[k]
    requires forall i: nat, b: bool :: i < |nodes| && CellOf(i, b) < 512 && nodes[i] + [b] != d ==>
      tree[CellOf(i, b)] == TreeValue(nodes + [d], codes, val, nodes[i] + [b])
    requires forall b: bool :: TreeValue(nodes + [d], codes, val, d + [b]) == 0
    ensures TreeOk(tree[CellOf(m, bit) := Entry(|nodes|)], nodes + [d], codes, val)
  {
    FindAppend(nodes, d, d);
    assert TreeValue(nodes + [d], codes, val, d) == Entry(|nodes|);
    hide TreeValue;
    var more, after := nodes + [d], tree[CellOf(m, bit) := Entry(|nodes|)];
    forall i: nat, b: bool | i < |more| && CellOf(i, b) < 512
      ensures after[CellOf(i, b)] == TreeValue(more, codes, val, more[i] + [b])
    {
      if i < |nodes| && nodes[i] + [b] == d {
        assert (nodes[i] + [b])[..|d| - 1] == nodes[i] && d[..|d| - 1] == nodes[m] && (nodes[i] + [b])[|d| - 1] == b;
        assert i == m && b == bit;
      } else if i < |nodes| {
        assert i != m || b != bit;
        assert CellOf(i, b) != CellOf(m, bit);
      }
    }
  }

  /** The end of a long code. */
  lemma CodeEnd(look_up: seq<int>, look_up2: seq<int>, tree: seq<int>, nodes: seq<BitString>, all: seq<BitString>,
                val: seq<Byte>, p: nat, m: nat)
    requires Entered(look_up, look_up2, tree, nodes, all, val, p) && p < |all| && |all[p]| > 8
    requires m < |nodes| && nodes[m] == all[p][..|all[p]| - 1] && CellOf(m, all[p][|all[p]| - 1]) < 512
    requires forall k :: 8 <= k < |all[p]| ==> all[p][..k] in nodes
    ensures Entered(look_up, look_up2, tree[CellOf(m, all[p][|all[p]| - 1]) := val[p] as int], nodes, all, val, p + 1)
  {
    hide CodeBits;
    var c, bit := all[p], all[p][|all[p]| - 1];
    assert all[..p + 1] == all[..p] + [c] && c == nodes[m] + [bit];
    CodeEndLook(look_up, look_up2, nodes, all[..p], val, c);
    CodeEndTree(tree, nodes, all, val, p, m, bit);
  }

  lemma CodeEndLook(look_up: seq<int>, look_up2: seq<int>, nodes: seq<BitString>, codes: seq<BitString>, val: seq<Byte>, c: BitString)
    requires LookOk(look_up, look_up2, nodes, codes, val) && |c| > 8 && |codes| < |val|
    ensures LookOk(look_up, look_up2, nodes, codes + [c], val)
  {
    hide CodeBits, Pack;
    forall w: nat | w < 256
      ensures look_up[w] == LookValue(nodes, codes + [c], val, CodeBits(w, 8))
      ensures look_up2[w] == LookValue2(nodes, codes + [c], val, w)
    {
      FindPrefixAppend(codes, c, CodeBits(w, 8));
    }
  }

  /** Only one cell belongs to the end of the code. */
  lemma CodeEndCell(nodes: seq<BitString>, all: seq<BitString>, val: seq<Byte>, p: nat, m: nat, bit: bool, i: nat, b: bool)
    requires CodeList(all, val) && NodesOk(nodes, all) && p < |all| && m < |nodes| && i < |nodes|
    requires all[p] == nodes[m] + [bit]
    ensures TreeValue(nodes, all[..p + 1], val, nodes[i] + [b])
         == if i == m && b == bit then val[p] else TreeValue(nodes, all[..p], val, nodes[i] + [b])
  {
    hide CodeList;
    var c := all[p];
    NoNodeThere(nodes, all, val, p);
    NoEarlierCode(all, val, p, c);
    assert all[..p + 1] == all[..p] + [c];
    FindAppend(all[..p], c, nodes[i] + [b]);
    if nodes[i] + [b] == c {
      assert (nodes[i] + [b])[..|c| - 1] == nodes[i] && c[..|c| - 1] == nodes[m] && (nodes[i] + [b])[|c| - 1] == b;
    }
  }

  lemma CodeEndTree(tree: seq<int>, nodes: seq<BitString>, all: seq<BitString>, val: seq<Byte>, p: nat, m: nat, bit: bool)
    requires CodeList(all, val) && NodesOk(nodes, all) && p < |all| && TreeOk(tree, nodes, all[..p], val)
    requires m < |nodes| && CellOf(m, bit) < 512 && all[p] == nodes[m] + [bit]
    ensures TreeOk(tree[CellOf(m, bit) := val[p] as int], nodes, all[..p + 1], val)
  {
    hide CodeList, NodesOk, TreeValue;
    ListLength(all, val);
    var after := tree[CellOf(m, bit) := val[p] as int];
    forall i: nat, b: bool | i < |nodes| && CellOf(i, b) < 512
      ensures after[CellOf(i, b)] == TreeValue(nodes, all[..p + 1], val, nodes[i] + [b])
    {
      CodeEndCell(nodes, all, val, p, m, bit, i, b);
    }
  }

  // ---- make_huff_table ----

  lemma SpecCodes(t: TableSpec)
    requires ValidTable(t)
    ensures CodeList(Codes(Sizes(t.bits)), t.val)
  {
    hide FittingLengths, Codes, Sizes;
    FittingPrefixFree(Sizes(t.bits), 16);
    forall p | 0 <= p < |t.val| ensures 1 <= |Codes(Sizes(t.bits))[p]| <= 16 { NonemptySize(t.bits, p); }
  }

  lemma {:induction false} BitShifted(c: nat, a: nat, i: nat)
    ensures Bit(c * Pow2(a), a + i) == Bit(c, i)
  {
    if a > 0 {
      assert c * Pow2(a) == 2 * (c * Pow2(a - 1));
      BitShifted(c, a - 1, i);
    }
  }

  /** Every node belongs to the nodes that the tree needs. */
  lemma NodesNeeded(nodes: seq<BitString>, all: seq<BitString>)
    requires NodesOk(nodes, all)
    ensures |nodes| <= |Inner(all)|
  {
    var s := set c | c in nodes;
    forall c | c in s ensures c in Inner(all) {
      var m :| 0 <= m < |nodes| && nodes[m] == c;
      var p :| 0 <= p < |all| && c < all[p];
      assert all[p][..|c|] == c;
    }
    SetOfDistinct(nodes);
    SubsetCard(s, Inner(all));
  }

  lemma {:induction false} SetOfDistinct(list: seq<BitString>)
    requires forall m, k :: 0 <= m < k < |list| ==> list[m] != list[k]
    ensures |set c | c in list| == |list|
  {
    if list != [] {
      var front, last := list[..|list| - 1], list[|list| - 1];
      SetOfDistinct(front);
      LastIsNew(list, front, last);
    }
  }

  lemma LastIsNew(list: seq<BitString>, front: seq<BitString>, last: BitString)
    requires list == front + [last] && forall m :: 0 <= m < |front| ==> list[m] != last
    ensures last !in front && (set c | c in list) == (set c | c in front) + {last}
  {
    forall m | 0 <= m < |front| ensures front[m] != last { assert list[m] == front[m]; }
  }

  /** With all codes entered the tree has exactly the nodes that it needs. */
  lemma NodesEnough(nodes: seq<BitString>, all: seq<BitString>)
    requires Linked(nodes, all)
    ensures |Inner(all)| <= |nodes|
  {
    var s := set c | c in nodes;
    forall c | c in Inner(all) ensures c in s {
      var p, k :| 0 <= p < |all| && 8 <= k < |all[p]| && c == all[p][..k];
    }
    SubsetCard(Inner(all), s);
    SetNotLarger(nodes);
  }

  lemma {:induction false} SetNotLarger(list: seq<BitString>)
    ensures |set c | c in list| <= |list|
  {
    if list != [] {
      var front, last := list[..|list| - 1], list[|list| - 1];
      SetNotLarger(front);
      assert list == front + [last];
      assert (set c | c in list) == (set c | c in front) + {last};
    }
  }

  /** While a short code is entered: its entries before `code` are new, all others as before. */
  ghost predicate ShortState(look_up: seq<int>, look_up2: seq<int>, nodes: seq<BitString>, all: seq<BitString>,
                             val: seq<Byte>, p: nat, start: nat, code: nat) {
    && |look_up| == 256 == |look_up2| && p < |all| == |val|
    && forall v: nat {:trigger EntryOk(look_up, look_up2, nodes, all, val, p, v, start, code)} ::
         v < 256 ==> EntryOk(look_up, look_up2, nodes, all, val, p, v, start, code)
  }

  ghost predicate EntryOk(look_up: seq<int>, look_up2: seq<int>, nodes: seq<BitString>, all: seq<BitString>,
                          val: seq<Byte>, p: nat, v: nat, start: nat, code: nat)
    requires |look_up| == 256 == |look_up2| && v < 256 && p < |all| == |val|
  {
    var codes := if start <= v < code then all[..p + 1] else all[..p];
    look_up[v] == LookValue(nodes, codes, val, CodeBits(v, 8)) && look_up2[v] == LookValue2(nodes, codes, val, v)
  }

  lemma ShortStart(look_up: seq<int>, look_up2: seq<int>, nodes: seq<BitString>, all: seq<BitString>, val: seq<Byte>,
                   p: nat, start: nat)
    requires p < |all| == |val| && LookOk(look_up, look_up2, nodes, all[..p], val)
    ensures ShortState(look_up, look_up2, nodes, all, val, p, start, start)
  {
    hide LookValue, LookValue2, CodeBits;
  }

  lemma ShortStep(look_up: seq<int>, look_up2: seq<int>, nodes: seq<BitString>, all: seq<BitString>, val: seq<Byte>,
                  p: nat, number: nat, size: nat, code: nat)
    requires CodeList(all, val) && NodesOk(nodes, all) && p < |all| && 1 <= size <= 8 && number < Pow2(size)
    requires all[p] == CodeBits(number, size)
    requires number * Pow2(8 - size) <= code < (number + 1) * Pow2(8 - size) && code < 256
    requires ShortState(look_up, look_up2, nodes, all, val, p, number * Pow2(8 - size), code)
    ensures ShortState(look_up[code := val[p] as int], look_up2[code := Pack(val[p], size, code) as int], nodes, all, val, p,
                       number * Pow2(8 - size), code + 1)
  {
    hide LookValue, LookValue2, CodeBits, CodeList, NodesOk, Pow2, Pack;
    EntriesOfCode(number, size, code);
    ShortEntry(nodes, all, val, p, code);
    var start := number * Pow2(8 - size);
    var l1, l2 := look_up[code := val[p] as int], look_up2[code := Pack(val[p], size, code) as int];
    var next := code + 1;
    forall v: nat | v < 256 ensures EntryOk(l1, l2, nodes, all, val, p, v, start, next) {
      assert EntryOk(look_up, look_up2, nodes, all, val, p, v, start, code);
    }
  }

  lemma ShortEnd(look_up: seq<int>, look_up2: seq<int>, nodes: seq<BitString>, all: seq<BitString>, val: seq<Byte>,
                 p: nat, number: nat, size: nat)
    requires CodeList(all, val) && NodesOk(nodes, all) && p < |all| && 1 <= size <= 8 && number < Pow2(size)
    requires all[p] == CodeBits(number, size)
    requires ShortState(look_up, look_up2, nodes, all, val, p, number * Pow2(8 - size), (number + 1) * Pow2(8 - size))
    ensures LookOk(look_up, look_up2, nodes, all[..p + 1], val)
  {
    hide LookValue, LookValue2, CodeBits, NodesOk, Pow2, Pack, PrefixFree;
    var start, end := number * Pow2(8 - size), (number + 1) * Pow2(8 - size);
    forall v: nat | v < 256
      ensures look_up[v] == LookValue(nodes, all[..p + 1], val, CodeBits(v, 8))
      ensures look_up2[v] == LookValue2(nodes, all[..p + 1], val, v)
    {
      assert EntryOk(look_up, look_up2, nodes, all, val, p, v, start, end);
      EntriesOfCode(number, size, v);
      ShortEntry(nodes, all, val, p, v);
    }
  }

  class HuffTables {
    const look_up: array<int>
    const look_up2: array<int>
    const code_size: array<nat>
    const tree: array<int>
    ghost var nodes: seq<BitString>

    ghost predicate Shape() {
      && look_up.Length == 256 == look_up2.Length && code_size.Length == 256 && tree.Length == 512
      && look_up != look_up2 && look_up != tree && look_up2 != tree
    }

    /** The first p codes of the table are in. */
    ghost predicate Holds(all: seq<BitString>, val: seq<Byte>, p: nat)
      reads this`nodes, look_up, look_up2, tree
    {
      Shape() && |nodes| <= 256 && Entered(look_up[..], look_up2[..], tree[..], nodes, all, val, p)
    }

    constructor ()
      ensures Shape() && fresh(look_up) && fresh(look_up2) && fresh(code_size) && fresh(tree)
      ensures nodes == []
      ensures forall i :: 0 <= i < 256 ==> look_up[i] == 0 == look_up2[i] && code_size[i] == 0
      ensures forall i :: 0 <= i < 512 ==> tree[i] == 0
    {
      look_up := new int[256](_ => 0);
      look_up2 := new int[256](_ => 0);
      code_size := new nat[256](_ => 0);
      tree := new int[512](_ => 0);
      nodes := [];
    }

    /** A code of at most eight bits: all entries that begin with it, with its extra bits where they fit. */
    method EnterShort(i: Byte, number: nat, size: nat, ghost all: seq<BitString>, ghost val: seq<Byte>, ghost p: nat)
      requires Holds(all, val, p) && p < |all| && i == val[p]
      requires all[p] == CodeBits(number, size) && 1 <= size <= 8 && number < Pow2(size)
      modifies look_up, look_up2
      ensures Holds(all, val, p + 1)
    {
      hide CodeBits, Pow2, Pack, LookOk, TreeOk, NodesOk, Linked, CodeList, Mask, Shr, ShortState;
      ghost var start, end := number * Pow2(8 - size), (number + 1) * Pow2(8 - size);
      EntriesFit(number, size);
      var code := number * Pow2(8 - size);
      ShortCodeTree(tree[..], nodes, all, val, p);
      ListLength(all, val);
      ShortStart(look_up[..], look_up2[..], nodes, all, val, p, start);
      for l := Pow2(8 - size) downto 0
        invariant code + l == end && start <= code
        invariant ShortState(look_up[..], look_up2[..], nodes, all, val, p, start, code)
      {
        ShortStep(look_up[..], look_up2[..], nodes, all, val, p, number, size, code);
        ghost var was, was2 := look_up[..], look_up2[..];
        look_up[code] := i;
        look_up2[code] := PackEntry(i, size, code);
        assert look_up[..] == was[code := val[p] as int];
        assert look_up2[..] == was2[code := Pack(val[p], size, code) as int];
        code := code + 1;
      }
      ShortEnd(look_up[..], look_up2[..], nodes, all, val, p, number, size);
    }

    /** look_up2's entry: the fields do not overlap, so or-ing them together is adding. */
    static function PackEntry(i: nat, code_size: nat, code: nat): (r: int)
      ensures r == Pack(i, code_size, code)
    {
      var num_extra_bits := i % 16;
      var total_codesize := code_size + num_extra_bits;
      if num_extra_bits != 0 && total_codesize <= 8 then
        i + 0x8000 + Mask(Shr(code, 8 - total_codesize), num_extra_bits) * 65536 + total_codesize * 256
      else i + code_size * 256
    }

    /** One inner step of a long code: down to the next node, a new one if there is none. */
    method Descend(currententry: int, nextfreeentry: int, bit: bool, ghost m: nat, ghost j: nat,
                   ghost all: seq<BitString>, ghost val: seq<Byte>, ghost p: nat)
      returns (current: int, next: int, ghost k: nat)
      requires Holds(all, val, p) && p < |all| && m < |nodes| && 8 <= j && j + 1 < |all[p]|
      requires nodes[m] == all[p][..j] && bit == all[p][j]
      requires currententry == Entry(m) && nextfreeentry == Entry(|nodes|)
      modifies this`nodes, tree
      ensures Shape() && Entered(look_up[..], look_up2[..], tree[..], nodes, all, val, p)
      ensures old(nodes) <= nodes && |nodes| <= 257 && k < |nodes| && nodes[k] == all[p][..j + 1]
      ensures current == Entry(k) && next == Entry(|nodes|)
      ensures |nodes| == 257 ==> k == 256
    {
      hide TreeOk, LookOk, NodesOk, Linked, CodeList;
      LongWay(tree[..], nodes, all, val, p, m, j);
      current := currententry;
      if !bit { current := current - 1; }
      var cell := -current - 1;
      assert cell == CellOf(m, bit);
      if tree[cell] == 0 {
        InnerNode(look_up[..], look_up2[..], tree[..], nodes, all, val, p, m, j);
        ghost var was := tree[..];
        tree[cell] := nextfreeentry;
        assert tree[..] == was[cell := Entry(|nodes|)];
        k := |nodes|;
        nodes := nodes + [all[p][..j + 1]];
        current, next := nextfreeentry, nextfreeentry - 2;
      } else {
        k := Find(nodes, all[p][..j + 1]);
        current, next := tree[cell], nextfreeentry;
      }
    }

    /** A code of more than eight bits: its way through the tree. False if the tree is full. */
    method EnterLong(i: Byte, number: nat, size: nat, nextfreeentry: int,
                     ghost all: seq<BitString>, ghost val: seq<Byte>, ghost p: nat)
      returns (ok: bool, next: int)
      requires Holds(all, val, p) && p < |all| && i == val[p] && nextfreeentry == Entry(|nodes|)
      requires all[p] == CodeBits(number, size) && 8 < size <= 16 && number < Pow2(size)
      modifies this`nodes, look_up, look_up2, tree
      ensures ok ==> Holds(all, val, p + 1) && next == Entry(|nodes|)
      ensures !ok ==> |nodes| > 256 && NodesOk(nodes, all)
    {
      hide CodeBits, Pow2, TreeOk, LookOk, NodesOk, Linked, CodeList, Shr, Bit;
      SubtreeOfCode(number, size);
      var subtree := Shr(number, size - 8) % 256;
      LongEntry(look_up[..], look_up2[..], tree[..], nodes, all, val, p, subtree);
      var currententry := look_up[subtree];
      next := nextfreeentry;
      ghost var m: nat := Find(nodes, all[p][..8]);
      if currententry == 0 {
        FirstNode(look_up[..], look_up2[..], tree[..], nodes, all, val, p, subtree);
        ghost var was, was2 := look_up[..], look_up2[..];
        currententry := next;
        look_up[subtree] := next;
        look_up2[subtree] := next;
        assert look_up[..] == was[subtree := Entry(|nodes|)] && look_up2[..] == was2[subtree := Entry(|nodes|)];
        m := |nodes|;
        nodes := nodes + [all[p][..8]];
        next := next - 2;
      }
      var code := number * Pow2(16 - (size - 8));
      assert 16 - (size - 8) == 16 - size + 8;
      ghost var j: nat := 8;
      ListLength(all, val);
      for l := size downto 9
        invariant j == 8 + (size - l) && j < size
        invariant Shape() && Entered(look_up[..], look_up2[..], tree[..], nodes, all, val, p)
        invariant |nodes| <= 257 && m < |nodes| && nodes[m] == all[p][..j] && (|nodes| == 257 ==> m == 256)
        invariant currententry == Entry(m) && next == Entry(|nodes|)
        invariant code == number * Pow2(16 - size + j)
        invariant forall k :: 8 <= k <= j ==> all[p][..k] in nodes
      {
        if -currententry - 1 >= 512 {
          EnteredNodes(look_up[..], look_up2[..], tree[..], nodes, all, val, p);
          return false, next;
        }
        assert Bit(code, 15) == all[p][j] by { BitOfCode(number, size, j); }
        currententry, next, m := Descend(currententry, next, Bit(code, 15), m, j, all, val, p);
        DoubleShift(number, 16 - size + j);
        code := code * 2;
        j := j + 1;
      }
      if -currententry - 1 >= 512 {
        EnteredNodes(look_up[..], look_up2[..], tree[..], nodes, all, val, p);
        return false, next;
      }
      assert Bit(code, 15) == all[p][j] by { BitOfCode(number, size, j); }
      CodeEnd(look_up[..], look_up2[..], tree[..], nodes, all, val, p, m);
      if !Bit(code, 15) { currententry := currententry - 1; }
      var cell := -currententry - 1;
      assert cell == CellOf(m, all[p][j]);
      ghost var was := tree[..];
      tree[cell] := i;
      assert tree[..] == was[cell := val[p] as int];
      ok := true;
    }

    /** make_huff_table, on zeroed tables. False exactly if the tree would need more than its 512 cells, two for a node. */
    method MakeHuffTable(t: TableSpec) returns (ok: bool)
      requires ValidTable(t) && Shape() && nodes == []
      requires forall i :: 0 <= i < 256 ==> look_up[i] == 0 == look_up2[i] && code_size[i] == 0
      requires forall i :: 0 <= i < 512 ==> tree[i] == 0
      modifies this`nodes, look_up, look_up2, code_size, tree
      ensures ok <==> |Inner(Codes(Sizes(t.bits)))| <= 256
      ensures ok <==> TreeSize(t.bits) <= 256
      ensures ok ==> Holds(Codes(Sizes(t.bits)), t.val, |t.val|)
      ensures ok ==> forall p :: 0 <= p < |t.val| ==> code_size[t.val[p]] == Sizes(t.bits)[p]
      ensures ok ==> forall s :: 0 <= s < 256 ==> code_size[s] <= 16
    {
      hide Codes, FittingLengths, CodeNumber, Entered, CodeList, Inner, TreeSize, Sizes, Ascending, Pow2;
      ghost var all, val := Codes(Sizes(t.bits)), t.val;
      InnerSize(t.bits);
      SpecCodes(t);
      var huffsize, lastp := ExpandSizes(t.bits);
      assert huffsize[..lastp] == Sizes(t.bits);
      SizesAscending(t.bits);
      var huffcode := NumberCodes(huffsize, lastp);
      var nextfreeentry := -1;
      NothingEntered(look_up[..], look_up2[..], tree[..], all, val);
      var p := 0;
      while p < lastp
        invariant p <= lastp && Holds(all, val, p) && nextfreeentry == Entry(|nodes|)
        invariant forall k :: 0 <= k < p ==> code_size[val[k]] == Sizes(t.bits)[k]
        invariant forall s :: 0 <= s < 256 ==> code_size[s] <= 16
      {
        var i := t.val[p];
        NonemptySize(t.bits, p);
        CodeAt(Sizes(t.bits), p);
        CodeFits(Sizes(t.bits), 16, p);
        code_size[i] := huffsize[p];
        if huffsize[p] <= 8 {
          EnterShort(i, huffcode[p], huffsize[p], all, val, p);
        } else {
          ok, nextfreeentry := EnterLong(i, huffcode[p], huffsize[p], nextfreeentry, all, val, p);
          if !ok {
            NodesNeeded(nodes, all);
            return;
          }
        }
        p := p + 1;
      }
      ok := true;
      assert all[..|val|] == all;
      EnteredNodes(look_up[..], look_up2[..], tree[..], nodes, all, val, |val|);
      NodesEnough(nodes, all);
    }
  }

  lemma ListLength(all: seq<BitString>, val: seq<Byte>)
    requires CodeList(all, val)
    ensures |all| == |val|
  {
  }

  lemma EnteredNodes(look_up: seq<int>, look_up2: seq<int>, tree: seq<int>, nodes: seq<BitString>,
                     all: seq<BitString>, val: seq<Byte>, p: nat)
    requires Entered(look_up, look_up2, tree, nodes, all, val, p)
    ensures NodesOk(nodes, all) && |all| == |val| && p <= |all| && Linked(nodes, all[..p])
  {
  }

  /** What a step finds in the cell below its node. */
  lemma LongWay(tree: seq<int>, nodes: seq<BitString>, all: seq<BitString>, val: seq<Byte>, p: nat, m: nat, j: nat)
    requires CodeList(all, val) && NodesOk(nodes, all) && p < |all| && TreeOk(tree, nodes, all[..p], val) && |nodes| <= 256
    requires m < |nodes| && j + 1 < |all[p]| && nodes[m] == all[p][..j]
    ensures |tree| == 512 && CellOf(m, all[p][j]) < 512
    ensures
      var k := Find(nodes, all[p][..j + 1]);
      tree[CellOf(m, all[p][j])] == if k < |nodes| then Entry(k) else 0
  {
    hide NodesOk, CodeList, TreeValue;
    NextCell(tree, nodes, all, val, p, m, j);
  }

  lemma EntriesFit(c: nat, n: nat)
    requires n <= 8 && c < Pow2(n)
    ensures c * Pow2(8 - n) + Pow2(8 - n) == (c + 1) * Pow2(8 - n) <= 256
  {
    WordPower();
    Pow2Add(n, 8 - n);
    MulMonotone(c + 1, Pow2(n), Pow2(8 - n));
    TimesPlusOne(c, Pow2(8 - n));
  }

  /** The first eight bits of a long code. */
  lemma SubtreeOfCode(number: nat, size: nat)
    requires 8 < size <= 16 && number < Pow2(size)
    ensures Shr(number, size - 8) < 256 && CodeBits(Shr(number, size - 8), 8) == CodeBits(number, size)[..8]
  {
    hide CodeBits, Shr, Pow2;
    CodeBitsPrefix(number, size, 8);
    WordPower();
    Pow2Add(8, size - 8);
    ShrBetween(number, size - 8, 0, 256);
  }

  /** The bit of the shifted code that is tested next. */
  lemma BitOfCode(number: nat, size: nat, j: nat)
    requires 8 <= j < size <= 16
    ensures Bit(number * Pow2(16 - size + j), 15) == CodeBits(number, size)[j]
  {
    hide CodeBits, Bit, Pow2;
    BitShifted(number, 16 - size + j, size - 1 - j);
    CodeBitsAt(number, size, j);
  }

  lemma DoubleShift(number: nat, a: nat)
    ensures number * Pow2(a) * 2 == number * Pow2(a + 1)
  {
    TimesTwo(number, Pow2(a));
  }
}
