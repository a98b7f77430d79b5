/**
 * The decoding tree of lodepng.c:545-603 as a set of paths. It is defined for every table of codes, also
 * for codes that are prefixes of each other; for prefix codes it is shown to be the code tree.
 */
module CodeTrees {
  import opened Bits
  import opened PrefixCode
  import opened Canonical

  /** Leaves hold symbols; inner nodes are the bit strings that go on. */
  datatype CodeTree = CodeTree(leaves: map<BitString, nat>, inner: set<BitString>)

  /** A tree under construction and the node where the next bit is added; None outside the tree. */
  datatype Growing = Growing(tree: CodeTree, at: Option<BitString>)

  const Root: Growing := Growing(CodeTree(map[], {[]}), Some([]))

  /**
   * One bit of the code of symbol n. No result stands for error 55: the position is outside the tree, or
   * all `room` inner nodes are in use. Only a code that ends at a new leaf leads back to the root.
   */
  ghost function GrowBit(g: Growing, room: nat, n: nat, bit: bool, last: bool): Option<Growing> {
    var t := g.tree;
    if g.at.None? || |t.inner| >= room then None
    else
      var q := g.at.value + [bit];
      if q in t.leaves then Some(Growing(t, None))
      else if q in t.inner then Some(Growing(t, Some(q)))
      else if last then Some(Growing(CodeTree(t.leaves[q := n], t.inner), Some([])))
      else Some(Growing(CodeTree(t.leaves, t.inner + {q}), Some(q)))
  }

  /** The bits of code c of symbol n, from bit i. */
  ghost function GrowCode(g: Growing, room: nat, n: nat, c: BitString, i: nat): Option<Growing>
    requires i <= |c|
    decreases |c| - i
  {
    if i == |c| then Some(g) else
    match GrowBit(g, room, n, c[i], i + 1 == |c|)
    case None => None
    case Some(g') => GrowCode(g', room, n, c, i + 1)
  }

  /** The codes of the symbols from n on. */
  ghost function GrowCodes(g: Growing, code: CodeTable, n: nat): Option<Growing>
    requires n <= |code|
    decreases |code| - n
  {
    if n == |code| then Some(g) else
    match GrowCode(g, |code|, n, code[n], 0)
    case None => None
    case Some(g') => GrowCodes(g', code, n + 1)
  }

  ghost function TreeOf(code: CodeTable): Option<CodeTree> {
    match GrowCodes(Root, code, 0)
    case None => None
    case Some(g) => Some(g.tree)
  }

  /** Following the bits from node p to a leaf; bits that lead out of the tree are symbol 0. */
  ghost function ReadFrom(t: CodeTree, p: BitString, bits: BitString): (r: Option<(nat, BitString)>)
    ensures r.Some? ==> |r.value.1| < |bits|
    decreases |bits|
  {
    if bits == [] then None
    else
      var q := p + [bits[0]];
      if q in t.leaves then Some((t.leaves[q], bits[1..]))
      else if q in t.inner then ReadFrom(t, q, bits[1..])
      else Some((0, bits[1..]))
  }

  /** Reading a symbol as the decoder does, whatever the codes are. */
  ghost function NextSymbol(code: CodeTable, bits: BitString): (r: Option<(nat, BitString)>)
    requires code != []
    ensures r.Some? ==> r.value.0 < |code| && |r.value.1| < |bits|
  {
    match TreeOf(code)
    case None => None
    case Some(t) =>
      SymbolsInRange(code);
      ReadInRange(t, |code|, [], bits);
      ReadFrom(t, [], bits)
  }

  ghost predicate InRange(t: CodeTree, n: nat) {
    forall p :: p in t.leaves ==> t.leaves[p] < n
  }

  lemma {:induction false} CodeInRange(g: Growing, room: nat, n: nat, c: BitString, i: nat)
    requires i <= |c| && n < room && InRange(g.tree, room)
    ensures GrowCode(g, room, n, c, i).Some? ==> InRange(GrowCode(g, room, n, c, i).value.tree, room)
    decreases |c| - i
  {
    if i < |c| {
      var next := GrowBit(g, room, n, c[i], i + 1 == |c|);
      if next.Some? { CodeInRange(next.value, room, n, c, i + 1); }
    }
  }

  lemma {:induction false} CodesInRange(g: Growing, code: CodeTable, n: nat)
    requires n <= |code| && InRange(g.tree, |code|)
    ensures GrowCodes(g, code, n).Some? ==> InRange(GrowCodes(g, code, n).value.tree, |code|)
    decreases |code| - n
  {
    if n < |code| {
      CodeInRange(g, |code|, n, code[n], 0);
      var next := GrowCode(g, |code|, n, code[n], 0);
      if next.Some? { CodesInRange(next.value, code, n + 1); }
    }
  }

  lemma SymbolsInRange(code: CodeTable)
    ensures TreeOf(code).Some? ==> InRange(TreeOf(code).value, |code|)
  {
    CodesInRange(Root, code, 0);
  }

  lemma {:induction false} ReadInRange(t: CodeTree, n: nat, p: BitString, bits: BitString)
    requires InRange(t, n) && n > 0
    ensures ReadFrom(t, p, bits).Some? ==> ReadFrom(t, p, bits).value.0 < n
    decreases |bits|
  {
    if bits != [] { ReadInRange(t, n, p + [bits[0]], bits[1..]); }
  }

  // ---- Prefix codes: the tree is the code tree ----

  /** The leaves are the codes of the symbols below n. */
  ghost predicate LeavesBelow(t: CodeTree, code: CodeTable, n: nat) {
    && (forall s: nat :: s < n && Present(code, s) ==> code[s] in t.leaves && t.leaves[code[s]] == s)
    && (forall p :: p in t.leaves ==> t.leaves[p] < n && Present(code, t.leaves[p]) && code[t.leaves[p]] == p)
  }

  /** The path leads to a longer code of a symbol below n. */
  ghost predicate InnerBelow(code: CodeTable, n: nat, p: BitString) {
    exists s: nat :: s < n && Present(code, s) && p < code[s]
  }

  /** The inner nodes are the root and the proper prefixes of codes below n, and of code n up to length i. */
  ghost predicate OpenedUpTo(t: CodeTree, code: CodeTable, n: nat, i: nat) {
    forall p :: p in t.inner <==> p == [] || InnerBelow(code, n, p) || (|p| <= i && n < |code| && p < code[n])
  }

  /** i bits of code n have been entered, and all codes before it. */
  ghost predicate Grown(g: Growing, code: CodeTable, n: nat, i: nat) {
    && n <= |code| && (i == 0 || (n < |code| && i < |code[n]|))
    && g.at == Some(if n < |code| then code[n][..i] else [])
    && LeavesBelow(g.tree, code, n) && OpenedUpTo(g.tree, code, n, i)
  }

  lemma SamePrefix(code: CodeTable, a: nat, b: nat)
    requires PrefixFree(code) && a < |code| && b < |code| && code[a] != [] && code[a] <= code[b]
    ensures a == b
  {
    assert Present(code, a) && Present(code, b);
  }

  /** Nothing is in the way of the next bit. */
  lemma WayFree(g: Growing, code: CodeTable, n: nat, i: nat)
    requires PrefixFree(code) && Grown(g, code, n, i) && n < |code| && i < |code[n]|
    ensures code[n][..i + 1] == code[n][..i] + [code[n][i]] && code[n][..i + 1] !in g.tree.leaves
    ensures i + 1 == |code[n]| ==> code[n][..i + 1] == code[n] && code[n] !in g.tree.inner
  {
    var q := code[n][..i + 1];
    assert q == code[n][..i] + [code[n][i]];
    if q in g.tree.leaves { SamePrefix(code, g.tree.leaves[q], n); }
    if i + 1 == |code[n]| {
      assert q == code[n];
      forall s: nat ensures !(s < n && Present(code, s) && code[n] < code[s]) { NotLonger(code, n, s); }
    }
  }

  lemma NotLonger(code: CodeTable, n: nat, s: nat)
    requires PrefixFree(code) && n < |code| && code[n] != []
    ensures !(s < n && Present(code, s) && code[n] < code[s])
  {
    assert Present(code, n);
  }

  lemma BitOfPrefixCode(g: Growing, code: CodeTable, n: nat, i: nat)
    requires PrefixFree(code) && Grown(g, code, n, i) && n < |code| && i < |code[n]| && |g.tree.inner| < |code|
    ensures
      var next := GrowBit(g, |code|, n, code[n][i], i + 1 == |code[n]|);
      && next.Some?
      && if i + 1 == |code[n]| then Grown(next.value, code, n + 1, 0) && next.value.tree.inner == g.tree.inner
         else Grown(next.value, code, n, i + 1)
  {
    WayFree(g, code, n, i);
    var q, t := code[n][..i + 1], g.tree;
    if i + 1 == |code[n]| {
      assert Present(code, n);
      LastBit(t, code, n);
    } else {
      OneMoreNode(t, code, n, i);
    }
  }

  lemma LastBit(t: CodeTree, code: CodeTable, n: nat)
    requires PrefixFree(code) && n < |code| && code[n] != [] && LeavesBelow(t, code, n) && OpenedUpTo(t, code, n, |code[n]| - 1)
    ensures LeavesBelow(CodeTree(t.leaves[code[n] := n], t.inner), code, n + 1)
    ensures OpenedUpTo(CodeTree(t.leaves[code[n] := n], t.inner), code, n + 1, 0)
  {
    assert Present(code, n);
    forall s: nat | s < n && Present(code, s) ensures code[s] != code[n] {
      if code[s] == code[n] { SamePrefix(code, s, n); }
    }
    forall p ensures InnerBelow(code, n + 1, p) <==> InnerBelow(code, n, p) || p < code[n] {
      InnerNext(code, n, p);
    }
  }

  lemma InnerNext(code: CodeTable, n: nat, p: BitString)
    requires n < |code|
    ensures InnerBelow(code, n + 1, p) <==> InnerBelow(code, n, p) || p < code[n]
  {
    if InnerBelow(code, n, p) {
      var s: nat :| s < n && Present(code, s) && p < code[s];
      assert s < n + 1 && Present(code, s) && p < code[s];
    }
    if p < code[n] { assert n < n + 1 && Present(code, n) && p < code[n]; }
  }

  lemma OneMoreNode(t: CodeTree, code: CodeTable, n: nat, i: nat)
    requires n < |code| && i + 1 < |code[n]| && OpenedUpTo(t, code, n, i)
    ensures OpenedUpTo(CodeTree(t.leaves, t.inner + {code[n][..i + 1]}), code, n, i + 1)
    ensures code[n][..i + 1] in t.inner ==> OpenedUpTo(t, code, n, i + 1)
  {
    var q := code[n][..i + 1];
    forall p ensures |p| <= i + 1 && p < code[n] <==> (|p| <= i && p < code[n]) || p == q {
    }
  }

  lemma GrownInside(g: Growing, code: CodeTable, n: nat, i: nat)
    requires Grown(g, code, n, i) && n < |code| && code[n] != []
    ensures |g.tree.inner| <= |InnerNodes(code)|
  {
    hide InnerNodes;
    assert Present(code, n);
    forall p | p in g.tree.inner ensures p in InnerNodes(code) {
      if InnerBelow(code, n, p) {
        var s: nat :| s < n && Present(code, s) && p < code[s];
        assert InnerPath(code, p);
      } else {
        assert p < code[n];
      }
    }
    SubsetCard(g.tree.inner, InnerNodes(code));
  }

  lemma {:induction false} CodeOfPrefixCode(g: Growing, code: CodeTable, n: nat, i: nat)
    requires PrefixFree(code) && Grown(g, code, n, i) && n < |code|
    ensures match GrowCode(g, |code|, n, code[n], i)
      case None => |InnerNodes(code)| >= |code|
      case Some(g') => Grown(g', code, n + 1, 0) && (code[n] != [] ==> |g'.tree.inner| < |code|)
    decreases |code[n]| - i
  {
    hide GrowBit, InnerNodes, PrefixFree, Grown;
    if code[n] == [] {
      NoBits(g, code, n, i);
    } else {
      InsideCode(g, code, n, i);
      GrownInside(g, code, n, i);
      if |g.tree.inner| < |code| {
        BitOfPrefixCode(g, code, n, i);
        var next := GrowBit(g, |code|, n, code[n][i], i + 1 == |code[n]|);
        if i + 1 < |code[n]| { CodeOfPrefixCode(next.value, code, n, i + 1); }
      } else {
        NoRoom(g, |code|, n, code[n][i], i + 1 == |code[n]|);
      }
    }
  }

  lemma NoRoom(g: Growing, room: nat, n: nat, bit: bool, last: bool)
    requires |g.tree.inner| >= room
    ensures GrowBit(g, room, n, bit, last) == None
  {
  }

  lemma InsideCode(g: Growing, code: CodeTable, n: nat, i: nat)
    requires Grown(g, code, n, i) && n < |code| && code[n] != []
    ensures i < |code[n]|
  {
  }

  lemma NoBits(g: Growing, code: CodeTable, n: nat, i: nat)
    requires Grown(g, code, n, i) && n < |code| && code[n] == []
    ensures i == 0 && Grown(g, code, n + 1, 0)
  {
    forall p ensures InnerBelow(code, n + 1, p) <==> InnerBelow(code, n, p) { InnerNext(code, n, p); }
    assert forall s: nat :: s < n + 1 && Present(code, s) ==> s < n;
  }

  /** Some symbol below n is used. */
  ghost predicate SomeBelow(code: CodeTable, n: nat) { exists s: nat :: s < n && Present(code, s) }

  lemma {:induction false} CodesOfPrefixCode(g: Growing, code: CodeTable, n: nat)
    requires PrefixFree(code) && Grown(g, code, n, 0) && n <= |code|
    requires SomeBelow(code, n) ==> |g.tree.inner| < |code|
    ensures match GrowCodes(g, code, n)
      case None => |InnerNodes(code)| >= |code|
      case Some(g') => Grown(g', code, |code|, 0) && (SomeBelow(code, |code|) ==> |g'.tree.inner| < |code|)
    decreases |code| - n
  {
    hide GrowCode, InnerNodes, PrefixFree, Grown;
    if n < |code| {
      CodeOfPrefixCode(g, code, n, 0);
      var next := GrowCode(g, |code|, n, code[n], 0);
      if next.Some? {
        if code[n] == [] {
          NothingGrown(g, |code|, n);
          assert SomeBelow(code, n + 1) ==> SomeBelow(code, n);
        }
        CodesOfPrefixCode(next.value, code, n + 1);
      }
    }
  }

  lemma NothingGrown(g: Growing, room: nat, n: nat)
    ensures GrowCode(g, room, n, [], 0) == Some(g)
  {
  }

  /** The tree holds the codes, and its inner nodes are those of the code tree, and the root. */
  ghost predicate Holds(t: CodeTree, code: CodeTable) {
    LeavesBelow(t, code, |code|) && forall p :: p in t.inner <==> p == [] || InnerPath(code, p)
  }

  /** The tree of a prefix code is its code tree; error 55 comes exactly if that has too many inner nodes. */
  lemma TreeOfPrefixCode(code: CodeTable)
    requires PrefixFree(code) && code != []
    ensures TreeOf(code).Some? <==> |InnerNodes(code)| < |code|
    ensures TreeOf(code).Some? ==> Holds(TreeOf(code).value, code)
  {
    hide GrowCodes, InnerNodes, PrefixFree;
    RootGrown(code);
    CodesOfPrefixCode(Root, code, 0);
    if TreeOf(code).Some? {
      var t := TreeOf(code).value;
      forall p ensures InnerBelow(code, |code|, p) <==> InnerPath(code, p) { BelowAll(code, p); }
      NodesWithRoot(t, code);
    }
  }

  lemma RootGrown(code: CodeTable)
    ensures Grown(Root, code, 0, 0) && !SomeBelow(code, 0)
  {
  }

  lemma BelowAll(code: CodeTable, p: BitString)
    ensures InnerBelow(code, |code|, p) <==> InnerPath(code, p)
  {
    if InnerPath(code, p) {
      var s: nat :| Present(code, s) && p < code[s];
      assert s < |code| && Present(code, s) && p < code[s];
    }
  }

  lemma NodesWithRoot(t: CodeTree, code: CodeTable)
    requires Holds(t, code) && code != [] && (SomeBelow(code, |code|) ==> |t.inner| < |code|)
    ensures |InnerNodes(code)| < |code|
  {
    hide InnerNodes;
    if SomeBelow(code, |code|) {
      SubsetCard(InnerNodes(code), t.inner);
    } else {
      forall p ensures p !in InnerNodes(code) { InnerMeansSome(code, p); }
      assert InnerNodes(code) == {};
    }
  }

  lemma InnerMeansSome(code: CodeTable, p: BitString)
    ensures InnerPath(code, p) ==> SomeBelow(code, |code|)
  {
    if InnerPath(code, p) {
      var s: nat :| Present(code, s) && p < code[s];
      assert s < |code| && Present(code, s);
    }
  }

  // ---- Prefix codes: following the tree is reading by the codes ----

  ghost predicate OnTree(t: CodeTree, code: CodeTable, p: BitString) {
    PrefixFree(code) && Holds(t, code) && (p == [] || InnerPath(code, p))
  }

  lemma {:induction false} ReadFromPrefixCode(t: CodeTree, code: CodeTable, p: BitString, rest: BitString)
    requires OnTree(t, code, p)
    ensures ReadFrom(t, p, rest) == ReadSymbol(code, p + rest)
    decreases |rest|
  {
    hide ReadSymbol, OnTree;
    if rest == [] {
      assert p + rest == p;
      NoCodeYet(t, code, p);
    } else {
      var q := p + [rest[0]];
      assert p + rest == q + rest[1..];
      OneStep(t, code, p, q, rest[1..]);
      if q !in t.leaves && q in t.inner { ReadFromPrefixCode(t, code, q, rest[1..]); }
    }
  }

  /** One more bit leads to a code, to an inner node, or out of the tree. */
  lemma OneStep(t: CodeTree, code: CodeTable, p: BitString, q: BitString, rest: BitString)
    requires OnTree(t, code, p) && |q| == |p| + 1 && p < q
    ensures q in t.leaves ==> ReadSymbol(code, q + rest) == Some((t.leaves[q], rest))
    ensures q !in t.leaves && q in t.inner ==> OnTree(t, code, q)
    ensures q !in t.leaves && q !in t.inner ==> ReadSymbol(code, q + rest) == Some((0, rest))
  {
    hide ReadSymbol;
    var all := q + rest;
    assert all[|q|..] == rest;
    if q in t.leaves {
      ReadCode(code, t.leaves[q], all);
    } else if q !in t.inner {
      NotTouched(t, code, q);
      DeadSlot(t, code, p, q, all);
      ReadDead(code, all, |q|);
    }
  }

  lemma NotTouched(t: CodeTree, code: CodeTable, q: BitString)
    requires Holds(t, code)
    ensures Touched(code, q) ==> q in t.leaves || q in t.inner
  {
    if s: nat :| Present(code, s) && q <= code[s] {
      if q != code[s] { assert Present(code, s) && q < code[s]; }
    }
  }

  /** Bits that lead out of the tree begin with no code. */
  lemma DeadSlot(t: CodeTree, code: CodeTable, p: BitString, q: BitString, all: BitString)
    requires OnTree(t, code, p) && |q| == |p| + 1 && p <= q && q <= all && !Touched(code, q)
    ensures DeadAt(code, all, |q|) && !exists s: nat :: Starts(code, s, all)
  {
    assert all[..|q|] == q && q[..|q| - 1] == p;
    forall s: nat ensures !Starts(code, s, all) {
      if Present(code, s) {
        NotInside(t, code, p, s);
        OnTheWay(code, s, q, all);
      }
    }
  }

  /** A code that the bits begin with ends before they leave the tree, or would keep them in it. */
  lemma OnTheWay(code: CodeTable, s: nat, q: BitString, all: BitString)
    requires Present(code, s) && q != [] && q <= all
    ensures code[s] <= all ==> code[s] <= q[..|q| - 1] || Touched(code, q)
  {
    if code[s] <= all { PrefixesCompare(code[s], q, all); }
  }

  /** No code is a prefix of an inner node. */
  lemma NotInside(t: CodeTree, code: CodeTable, p: BitString, s: nat)
    requires OnTree(t, code, p) && Present(code, s)
    ensures !(code[s] <= p)
  {
    if p != [] {
      var o: nat :| Present(code, o) && p < code[o];
      PrefixOfPrefix(code[s], p, code[o]);
    }
  }

  lemma PrefixOfPrefix(a: BitString, b: BitString, c: BitString)
    ensures a <= b && b <= c ==> a <= c
  {
  }

  /** Bits that end at an inner node are not a symbol yet. */
  lemma NoCodeYet(t: CodeTree, code: CodeTable, p: BitString)
    requires OnTree(t, code, p)
    ensures ReadSymbol(code, p) == None
  {
    forall s: nat ensures !Starts(code, s, p) {
      if Present(code, s) { NotInside(t, code, p, s); }
    }
    forall n: nat ensures !DeadAt(code, p, n) { AliveInside(code, p, n); }
  }

  lemma AliveInside(code: CodeTable, p: BitString, n: nat)
    requires p == [] || InnerPath(code, p)
    ensures !DeadAt(code, p, n)
  {
    if p != [] && n <= |p| {
      var o: nat :| Present(code, o) && p < code[o];
      assert Present(code, o) && p[..n] <= code[o];
    }
  }

  /** Codes that can be read back: no code is a prefix of another, and the tree fits. */
  ghost predicate Readable(code: CodeTable) {
    PrefixFree(code) && |InnerNodes(code)| < |code|
  }

  /** For such codes, walking the tree is reading by the codes. */
  lemma NextIsRead(code: CodeTable, bits: BitString)
    requires Readable(code)
    ensures code != [] && NextSymbol(code, bits) == ReadSymbol(code, bits)
  {
    hide ReadSymbol, PrefixFree, InnerNodes, TreeOf, Holds;
    TreeOfPrefixCode(code);
    var t := TreeOf(code).value;
    assert OnTree(t, code, []);
    ReadFromPrefixCode(t, code, [], bits);
    assert [] + bits == bits;
  }

  lemma NextEncoded(code: CodeTable, s: nat, rest: BitString)
    requires Readable(code) && Present(code, s)
    ensures NextSymbol(code, code[s] + rest) == Some((s, rest))
  {
    hide ReadSymbol, NextSymbol, PrefixFree, InnerNodes;
    NextIsRead(code, code[s] + rest);
    ReadEncoded(code, s, rest);
  }

  // ---- Canonical codes ----

  /** What the decoder makes of code lengths: error 55 if the tree needs too many nodes or a code runs out of it. */
  ghost function ReadTree(lengths: seq<nat>): (r: Result<CodeTable>)
    ensures r.Ok? ==> r.value == Codes(lengths)
  {
    if TreeOf(Codes(lengths)).Some? then Ok(Codes(lengths)) else Err(55)
  }

  lemma CompleteReadable(lengths: seq<nat>, maxLen: nat)
    requires CompleteLengths(lengths, maxLen)
    ensures Readable(Codes(lengths))
  {
    hide InnerNodes, Codes, KraftTo, PrefixFree;
    CompleteHasRoom(lengths, maxLen);
    CanonicalPrefixFree(lengths, maxLen);
    CodesSize(lengths);
  }

  lemma CodesSize(lengths: seq<nat>)
    ensures |Codes(lengths)| == |lengths|
  {
  }

  /** Lengths that fit into a prefix code are refused exactly if its tree has as many inner nodes as there are symbols, or more. */
  lemma ReadFittingTree(lengths: seq<nat>, maxLen: nat)
    requires FittingLengths(lengths, maxLen) && lengths != []
    ensures ReadTree(lengths).Ok? <==> |InnerNodes(Codes(lengths))| < |lengths|
  {
    hide InnerNodes, Codes, KraftTo, PrefixFree, TreeOf, Holds;
    FittingPrefixFree(lengths, maxLen);
    CodesSize(lengths);
    TreeOfPrefixCode(Codes(lengths));
  }

  lemma ReadReadableTree(lengths: seq<nat>)
    requires Readable(Codes(lengths))
    ensures ReadTree(lengths) == Ok(Codes(lengths))
  {
    hide InnerNodes, Codes, PrefixFree, TreeOf, Holds;
    TreeOfPrefixCode(Codes(lengths));
  }

  lemma ReadCompleteTree(lengths: seq<nat>, maxLen: nat)
    requires CompleteLengths(lengths, maxLen)
    ensures ReadTree(lengths) == Ok(Codes(lengths))
  {
    hide Readable, Codes, KraftTo, ReadTree;
    CompleteReadable(lengths, maxLen);
    ReadReadableTree(lengths);
  }
}
