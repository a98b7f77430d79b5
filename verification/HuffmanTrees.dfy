/** The two-row decoding tree of lodepng.c:545-648 and the symbol decoder of lodepng.c:926-944. */
module HuffmanTrees {
  import opened Bits
  import opened BitStream
  import opened PrefixCode
  import opened Canonical
  import opened CodeTrees

  /** Marks a slot of the decoding tree that no code has reached yet. */
  const UNSET: nat := 32767

  /**
   * Column k of the tree stands for the inner node paths[k]; its two slots hold a symbol, or the number of
   * codes plus the column of the longer path. Columns beyond the paths are untouched.
   */
  ghost predicate TreeShape(t: seq<nat>, numcodes: nat, tree: CodeTree, paths: seq<BitString>) {
    && |t| == 2 * numcodes <= UNSET && 0 < |paths| <= numcodes && paths[0] == []
    && Distinct(paths) && NodesAre(tree, paths) && Connected(tree) && InRange(tree, numcodes)
    && SlotsShape(t, numcodes, tree, paths) && UnsetFrom(t, 2 * |paths|)
  }

  ghost predicate Distinct(paths: seq<BitString>) {
    forall i, j :: 0 <= i < j < |paths| ==> paths[i] != paths[j]
  }

  ghost predicate NodesAre(tree: CodeTree, paths: seq<BitString>) {
    forall p :: p in tree.inner <==> p in paths
  }

  /** Every node but the root hangs on an inner node. */
  ghost predicate Connected(tree: CodeTree) {
    forall p, bit {:trigger p + [bit]} :: p + [bit] in tree.leaves || p + [bit] in tree.inner ==> p in tree.inner
  }

  ghost predicate UnsetFrom(t: seq<nat>, n: nat) {
    forall j :: n <= j < |t| ==> t[j] == UNSET
  }

  ghost predicate SlotsShape(t: seq<nat>, numcodes: nat, tree: CodeTree, paths: seq<BitString>)
    requires |paths| <= numcodes && |t| == 2 * numcodes
  {
    forall k, bit :: 0 <= k < |paths| ==> SlotShape(t, numcodes, tree, paths, k, bit)
  }

  ghost predicate SlotShape(t: seq<nat>, numcodes: nat, tree: CodeTree, paths: seq<BitString>, k: nat, bit: bool)
    requires k < |paths| <= numcodes && |t| == 2 * numcodes
  {
    var e, q := t[2 * k + B2N(bit)], paths[k] + [bit];
    if e == UNSET then q !in tree.leaves && q !in tree.inner
    else if e < numcodes then q in tree.leaves && tree.leaves[q] == e
    else q !in tree.leaves && e - numcodes < |paths| && paths[e - numcodes] == q
  }

  ghost function PathSet(paths: seq<BitString>): set<BitString> {
    set j | 0 <= j < |paths| :: paths[j]
  }

  lemma {:induction false} PathSetCard(paths: seq<BitString>)
    requires Distinct(paths)
    ensures |PathSet(paths)| == |paths|
  {
    if paths != [] {
      var front, last := paths[..|paths| - 1], paths[|paths| - 1];
      PathSetCard(front);
      SetOfLast(paths);
    }
  }

  lemma SetOfLast(paths: seq<BitString>)
    requires paths != [] && Distinct(paths)
    ensures
      var front, last := paths[..|paths| - 1], paths[|paths| - 1];
      last !in PathSet(front) && PathSet(paths) == PathSet(front) + {last}
  {
    var front, last := paths[..|paths| - 1], paths[|paths| - 1];
    forall p ensures p in PathSet(paths) <==> p in PathSet(front) || p == last {
      if p in PathSet(paths) {
        var j :| 0 <= j < |paths| && paths[j] == p;
        assert j < |front| ==> front[j] == p;
      }
      if p in PathSet(front) {
        var j :| 0 <= j < |front| && front[j] == p;
        assert paths[j] == p;
      }
    }
  }

  /** There are as many columns in use as the tree has inner nodes. */
  lemma ColumnsCounted(tree: CodeTree, paths: seq<BitString>)
    requires NodesAre(tree, paths) && Distinct(paths)
    ensures |tree.inner| == |paths|
  {
    PathSetCard(paths);
    assert PathSet(paths) == tree.inner;
  }

  lemma AppendInjective(a: BitString, x: bool, b: BitString, y: bool)
    ensures a + [x] == b + [y] ==> a == b && x == y
  {
    if a + [x] == b + [y] {
      assert a == (a + [x])[..|a|] && b == (b + [y])[..|a|];
      assert (a + [x])[|a|] == x && (b + [y])[|a|] == y;
    }
  }

  /** Two different slots stand for different paths. */
  lemma OtherSlot(paths: seq<BitString>, k: nat, bit: bool, k': nat, bit': bool)
    requires Distinct(paths) && k < |paths| && k' < |paths|
    ensures paths[k] + [bit] == paths[k'] + [bit'] ==> k == k' && bit == bit'
  {
    AppendInjective(paths[k], bit, paths[k'], bit');
  }

  /** The last bit of the code of symbol n. */
  lemma PlaceLeaf(t: seq<nat>, numcodes: nat, tree: CodeTree, paths: seq<BitString>, k: nat, bit: bool, n: nat)
    requires TreeShape(t, numcodes, tree, paths) && n < numcodes && k < |paths| && t[2 * k + B2N(bit)] == UNSET
    ensures TreeShape(t[2 * k + B2N(bit) := n], numcodes, CodeTree(tree.leaves[paths[k] + [bit] := n], tree.inner), paths)
  {
    hide Distinct, NodesAre, Connected, SlotsShape, UnsetFrom;
    var q := paths[k] + [bit];
    var t', tree' := t[2 * k + B2N(bit) := n], CodeTree(tree.leaves[q := n], tree.inner);
    LeafConnected(tree, paths, k, bit, n);
    LeafSlots(t, numcodes, tree, paths, k, bit, n);
    SameNodes(tree, tree', paths);
    StillUnset(t, 2 * k + B2N(bit), n, 2 * |paths|, 2 * |paths|);
  }

  lemma SameNodes(tree: CodeTree, tree': CodeTree, paths: seq<BitString>)
    requires NodesAre(tree, paths) && tree'.inner == tree.inner
    ensures NodesAre(tree', paths)
  {
  }

  lemma StillUnset(t: seq<nat>, slot: nat, e: nat, n: nat, m: nat)
    requires UnsetFrom(t, n) && n <= m && slot < m && slot < |t|
    ensures UnsetFrom(t[slot := e], m)
  {
  }

  lemma LeafConnected(tree: CodeTree, paths: seq<BitString>, k: nat, bit: bool, n: nat)
    requires Connected(tree) && NodesAre(tree, paths) && k < |paths|
    ensures Connected(CodeTree(tree.leaves[paths[k] + [bit] := n], tree.inner))
  {
    forall p, bit': bool ensures p + [bit'] == paths[k] + [bit] ==> p in tree.inner {
      AppendInjective(p, bit', paths[k], bit);
    }
  }

  lemma LeafSlots(t: seq<nat>, numcodes: nat, tree: CodeTree, paths: seq<BitString>, k: nat, bit: bool, n: nat)
    requires |t| == 2 * numcodes <= UNSET && |paths| <= numcodes && Distinct(paths) && SlotsShape(t, numcodes, tree, paths)
    requires n < numcodes && k < |paths| && t[2 * k + B2N(bit)] == UNSET
    ensures SlotsShape(t[2 * k + B2N(bit) := n], numcodes, CodeTree(tree.leaves[paths[k] + [bit] := n], tree.inner), paths)
  {
    hide Distinct;
    var t', tree' := t[2 * k + B2N(bit) := n], CodeTree(tree.leaves[paths[k] + [bit] := n], tree.inner);
    forall k', bit' | 0 <= k' < |paths|
      ensures SlotShape(t', numcodes, tree', paths, k', bit')
    {
      assert SlotShape(t, numcodes, tree, paths, k', bit');
      OtherSlot(paths, k, bit, k', bit');
    }
  }

  /** A bit that goes on to a new column. */
  lemma AddColumn(t: seq<nat>, numcodes: nat, tree: CodeTree, paths: seq<BitString>, k: nat, bit: bool)
    requires TreeShape(t, numcodes, tree, paths) && k < |paths| < numcodes && t[2 * k + B2N(bit)] == UNSET
    ensures
      var q := paths[k] + [bit];
      TreeShape(t[2 * k + B2N(bit) := |paths| + numcodes], numcodes, CodeTree(tree.leaves, tree.inner + {q}), paths + [q])
  {
    hide Distinct, NodesAre, Connected, UnsetFrom;
    var q := paths[k] + [bit];
    assert SlotShape(t, numcodes, tree, paths, k, bit);
    ColumnNodes(tree, paths, k, bit);
    ColumnConnected(tree, paths, k, bit);
    ColumnSlots(t, numcodes, tree, paths, k, bit);
    StillUnset(t, 2 * k + B2N(bit), |paths| + numcodes, 2 * |paths|, 2 * (|paths| + 1));
  }

  lemma ColumnNodes(tree: CodeTree, paths: seq<BitString>, k: nat, bit: bool)
    requires NodesAre(tree, paths) && Distinct(paths) && k < |paths| && paths[k] + [bit] !in tree.inner
    ensures
      var q := paths[k] + [bit];
      NodesAre(CodeTree(tree.leaves, tree.inner + {q}), paths + [q]) && Distinct(paths + [q])
  {
  }

  lemma ColumnConnected(tree: CodeTree, paths: seq<BitString>, k: nat, bit: bool)
    requires Connected(tree) && NodesAre(tree, paths) && k < |paths|
    ensures Connected(CodeTree(tree.leaves, tree.inner + {paths[k] + [bit]}))
  {
    forall p, bit': bool ensures p + [bit'] == paths[k] + [bit] ==> p in tree.inner {
      AppendInjective(p, bit', paths[k], bit);
    }
  }

  lemma ColumnSlots(t: seq<nat>, numcodes: nat, tree: CodeTree, paths: seq<BitString>, k: nat, bit: bool)
    requires |t| == 2 * numcodes <= UNSET && k < |paths| < numcodes && Distinct(paths) && Connected(tree)
    requires SlotsShape(t, numcodes, tree, paths) && UnsetFrom(t, 2 * |paths|) && t[2 * k + B2N(bit)] == UNSET
    ensures
      var q := paths[k] + [bit];
      SlotsShape(t[2 * k + B2N(bit) := |paths| + numcodes], numcodes, CodeTree(tree.leaves, tree.inner + {q}), paths + [q])
  {
    hide Distinct, Connected, UnsetFrom;
    var q := paths[k] + [bit];
    var t', tree' := t[2 * k + B2N(bit) := |paths| + numcodes], CodeTree(tree.leaves, tree.inner + {q});
    assert SlotShape(t, numcodes, tree, paths, k, bit);
    forall k', bit' | 0 <= k' < |paths + [q]|
      ensures SlotShape(t', numcodes, tree', paths + [q], k', bit')
    {
      if k' < |paths| {
        assert SlotShape(t, numcodes, tree, paths, k', bit');
        OtherSlot(paths, k, bit, k', bit');
        KeepSlot(t, numcodes, tree, paths, k, bit, k', bit');
      } else {
        EmptySlot(t, numcodes, tree, paths, q, bit');
        assert t'[2 * |paths| + B2N(bit')] == t[2 * |paths| + B2N(bit')];
      }
    }
  }

  lemma KeepSlot(t: seq<nat>, numcodes: nat, tree: CodeTree, paths: seq<BitString>, k: nat, bit: bool, k': nat, bit': bool)
    requires |t| == 2 * numcodes <= UNSET && |paths| < numcodes && k < |paths| && k' < |paths|
    requires SlotShape(t, numcodes, tree, paths, k', bit') && paths[k] + [bit] !in tree.leaves
    requires paths[k] + [bit] == paths[k'] + [bit'] ==> k == k' && bit == bit'
    ensures
      var q := paths[k] + [bit];
      SlotShape(t[2 * k + B2N(bit) := |paths| + numcodes], numcodes, CodeTree(tree.leaves, tree.inner + {q}), paths + [q], k', bit')
  {
  }

  /** Nothing hangs on a new node. */
  lemma EmptySlot(t: seq<nat>, numcodes: nat, tree: CodeTree, paths: seq<BitString>, q: BitString, bit: bool)
    requires |t| == 2 * numcodes && |paths| < numcodes && UnsetFrom(t, 2 * |paths|)
    requires Connected(tree) && q !in tree.inner
    ensures t[2 * |paths| + B2N(bit)] == UNSET && q + [bit] !in tree.leaves && q + [bit] !in tree.inner + {q}
  {
    assert |q + [bit]| != |q|;
  }

  // ---- Building the tree ----

  /** Where the next bit goes: a column, or in the source's unsigned numbers far outside. The last of all columns is only used when it is new. */
  ghost predicate AtPosition(at: Option<BitString>, numcodes: nat, paths: seq<BitString>, treepos: int) {
    match at
    case None => treepos < 0
    case Some(p) => 0 <= treepos < |paths| && paths[treepos] == p && (|paths| < numcodes || treepos == |paths| - 1)
  }

  /** The rows filled so far stand for a tree under construction. */
  ghost predicate Stands(t: seq<nat>, numcodes: nat, g: Growing, paths: seq<BitString>, treepos: int, nodefilled: nat) {
    TreeShape(t, numcodes, g.tree, paths) && AtPosition(g.at, numcodes, paths, treepos) && nodefilled == |paths| - 1
  }

  lemma EmptyStands(t: seq<nat>, numcodes: nat)
    requires 0 < |t| == 2 * numcodes <= UNSET && forall j :: 0 <= j < |t| ==> t[j] == UNSET
    ensures Stands(t, numcodes, Root, [[]], 0, 0)
  {
    assert Connected(Root.tree);
  }

  /** A slot that is taken leads to its column, or from a symbol out of the tree. */
  lemma FollowSlot(t: seq<nat>, numcodes: nat, tree: CodeTree, paths: seq<BitString>, k: nat, bit: bool)
    requires TreeShape(t, numcodes, tree, paths) && k < |paths|
    ensures
      var e, q := t[2 * k + B2N(bit)], paths[k] + [bit];
      && (e == UNSET ==> q !in tree.leaves && q !in tree.inner)
      && (e != UNSET && q in tree.leaves ==> e < numcodes)
      && (e != UNSET && q !in tree.leaves ==> q in tree.inner && 0 <= e - numcodes < |paths| && paths[e - numcodes] == q)
  {
    hide Distinct, Connected, InRange, UnsetFrom;
    assert SlotShape(t, numcodes, tree, paths, k, bit);
  }

  /** Enters one bit of the code of symbol n; the position and the fill level move as in the source. */
  method EnterBit(t: array<nat>, n: nat, numcodes: nat, bit: bool, last: bool, treepos: int, nodefilled: nat,
                  ghost g: Growing, ghost paths: seq<BitString>)
    returns (error: nat, treepos': int, nodefilled': nat, ghost paths': seq<BitString>)
    requires n < numcodes && Stands(t[..], numcodes, g, paths, treepos, nodefilled)
    modifies t
    ensures match GrowBit(g, numcodes, n, bit, last)
      case None => error == 55
      case Some(g') => error == 0 && Stands(t[..], numcodes, g', paths', treepos', nodefilled')
  {
    hide TreeShape;
    error, treepos', nodefilled', paths' := 0, treepos, nodefilled, paths;
    ghost var before := t[..];
    ShapeSizes(before, numcodes, g.tree, paths);
    if treepos < 0 || treepos + 2 > numcodes { return 55, treepos', nodefilled', paths'; }
    var slot := 2 * treepos + B2N(bit);
    FollowSlot(before, numcodes, g.tree, paths, treepos, bit);
    if t[slot] == UNSET {
      if last {
        PlaceLeaf(before, numcodes, g.tree, paths, treepos, bit, n);
        t[slot] := n;
        treepos' := 0;
      } else {
        AddColumn(before, numcodes, g.tree, paths, treepos, bit);
        nodefilled' := nodefilled + 1;
        t[slot] := nodefilled' + numcodes;
        treepos' := nodefilled';
        paths' := paths + [paths[treepos] + [bit]];
      }
      assert t[..] == before[slot := t[slot]];
    } else {
      treepos' := t[slot] - numcodes;
    }
  }

  lemma ShapeSizes(t: seq<nat>, numcodes: nat, tree: CodeTree, paths: seq<BitString>)
    requires TreeShape(t, numcodes, tree, paths)
    ensures |t| == 2 * numcodes && 0 < |tree.inner| == |paths| <= numcodes && paths[0] == []
  {
    ColumnsCounted(tree, paths);
  }

  /** Enters the bits of the code of symbol n, most significant first. */
  method EnterCode(t: array<nat>, n: nat, numcodes: nat, value: nat, length: nat, treepos: int, nodefilled: nat,
                   ghost g: Growing, ghost paths: seq<BitString>)
    returns (error: nat, treepos': int, nodefilled': nat, ghost paths': seq<BitString>)
    requires n < numcodes && Stands(t[..], numcodes, g, paths, treepos, nodefilled)
    modifies t
    ensures match GrowCode(g, numcodes, n, CodeBits(value, length), 0)
      case None => error == 55
      case Some(g') => error == 0 && Stands(t[..], numcodes, g', paths', treepos', nodefilled')
  {
    hide Stands, GrowBit, CodeBits;
    error, treepos', nodefilled', paths' := 0, treepos, nodefilled, paths;
    ghost var c, now := CodeBits(value, length), g;
    for i := 0 to length
      invariant Stands(t[..], numcodes, now, paths', treepos', nodefilled')
      invariant GrowCode(now, numcodes, n, c, i) == GrowCode(g, numcodes, n, c, 0)
    {
      var bit := Bit(value, length - i - 1);
      CodeBitsAt(value, length, i);
      ghost var next := GrowBit(now, numcodes, n, bit, i + 1 == length);
      error, treepos', nodefilled', paths' :=
        EnterBit(t, n, numcodes, bit, i + 1 == length, treepos', nodefilled', now, paths');
      if error != 0 { return; }
      now := next.value;
    }
    error := 0;
  }

  /** The bits that the low lengths[s] bits of table entry tree1d[s] stand for. */
  function TableCodes(tree1d: seq<nat>, lengths: seq<nat>): (code: CodeTable)
    requires |tree1d| == |lengths|
    ensures |code| == |lengths|
    ensures forall s :: 0 <= s < |code| ==> |code[s]| == lengths[s]
  {
    seq(|lengths|, s requires 0 <= s < |lengths| => CodeBits(tree1d[s], lengths[s]))
  }

  /** The slots of used columns are final: they spell the tree, and those that lead out of it hold symbol 0. */
  ghost predicate Spells(t: seq<nat>, numcodes: nat, tree: CodeTree, paths: seq<BitString>) {
    && |t| == 2 * numcodes && 0 < |paths| <= numcodes && paths[0] == []
    && (forall k, bit :: 0 <= k < |paths| ==> SlotFinal(t, numcodes, tree, paths, k, bit))
  }

  ghost predicate SlotFinal(t: seq<nat>, numcodes: nat, tree: CodeTree, paths: seq<BitString>, k: nat, bit: bool)
    requires k < |paths| <= numcodes && |t| == 2 * numcodes
  {
    var e, q := t[2 * k + B2N(bit)], paths[k] + [bit];
    if q in tree.leaves then e == tree.leaves[q] < numcodes
    else if q in tree.inner then 0 <= e - numcodes < |paths| && paths[e - numcodes] == q
    else e == 0
  }

  lemma FinishTree(t: seq<nat>, t': seq<nat>, numcodes: nat, g: Growing, paths: seq<BitString>, treepos: int, nodefilled: nat)
    requires Stands(t, numcodes, g, paths, treepos, nodefilled)
    requires |t'| == |t| && forall i :: 0 <= i < |t| ==> t'[i] == if t[i] == UNSET then 0 else t[i]
    ensures Spells(t', numcodes, g.tree, paths)
  {
    hide Distinct, Connected, UnsetFrom;
    forall k, bit | 0 <= k < |paths|
      ensures SlotFinal(t', numcodes, g.tree, paths, k, bit)
    {
      assert SlotShape(t, numcodes, g.tree, paths, k, bit);
    }
  }

  /** Builds the decoding tree of a code table, whatever the codes are; error 55 exactly where that tree cannot be grown. */
  method Make2DTree(tree1d: seq<nat>, lengths: seq<nat>)
    returns (error: nat, tree2d: seq<nat>, ghost paths: seq<BitString>)
    requires |tree1d| == |lengths| && 0 < 2 * |lengths| <= UNSET
    ensures match TreeOf(TableCodes(tree1d, lengths))
      case None => error == 55
      case Some(tree) => error == 0 && Spells(tree2d, |lengths|, tree, paths)
  {
    hide Stands, Spells, GrowCode, CodeBits;
    var numcodes := |lengths|;
    ghost var code := TableCodes(tree1d, lengths);
    ghost var now := Root;
    var t := new nat[2 * numcodes](_ => UNSET);
    var nodefilled: nat := 0;
    var treepos: int := 0;
    paths := [[]];
    tree2d := [];
    EmptyStands(t[..], numcodes);
    for n := 0 to numcodes
      invariant Stands(t[..], numcodes, now, paths, treepos, nodefilled)
      invariant GrowCodes(now, code, n) == GrowCodes(Root, code, 0)
    {
      ghost var next := GrowCode(now, numcodes, n, code[n], 0);
      error, treepos, nodefilled, paths :=
        EnterCode(t, n, numcodes, tree1d[n], lengths[n], treepos, nodefilled, now, paths);
      if error != 0 { return; }
      now := next.value;
    }
    ghost var unfinished := t[..];
    for n := 0 to 2 * numcodes
      invariant forall j :: 0 <= j < n ==> t[j] == if unfinished[j] == UNSET then 0 else unfinished[j]
      invariant forall j :: n <= j < 2 * numcodes ==> t[j] == unfinished[j]
    {
      if t[n] == UNSET { t[n] := 0; }
    }
    tree2d := t[..];
    error := 0;
    FinishTree(unfinished, tree2d, numcodes, now, paths, treepos, nodefilled);
  }

  /** Steps 1 and 2 of makeFromLengths2; bl_count[0] is not zeroed, so entry l is too large by a multiple of 2^l. */
  method FirstCodes(lengths: seq<nat>, maxbitlen: nat) returns (nextcode: array<nat>)
    requires LengthsWithin(lengths, maxbitlen)
    ensures fresh(nextcode) && nextcode.Length == maxbitlen + 1
    ensures forall l :: 1 <= l <= maxbitlen ==>
      nextcode[l] == FirstCode(lengths, l) + CountUpTo(lengths, 0, |lengths|) * Pow2(l)
  {
    var blcount := new nat[maxbitlen + 1](_ => 0);
    for n := 0 to |lengths|
      invariant forall l :: 0 <= l <= maxbitlen ==> blcount[l] == CountUpTo(lengths, l, n)
    {
      blcount[lengths[n]] := blcount[lengths[n]] + 1;
    }
    nextcode := new nat[maxbitlen + 1](_ => 0);
    ghost var unused := CountUpTo(lengths, 0, |lengths|);
    for bits := 1 to maxbitlen + 1
      invariant nextcode[0] == 0
      invariant forall l :: 0 <= l <= maxbitlen ==> blcount[l] == CountUpTo(lengths, l, |lengths|)
      invariant forall l :: 1 <= l < bits ==> nextcode[l] == FirstCode(lengths, l) + unused * Pow2(l)
    {
      NextOffset(lengths, bits, nextcode[bits - 1], unused);
      nextcode[bits] := (nextcode[bits - 1] + blcount[bits - 1]) * 2;
    }
  }

  /** Step 3: the codes in symbol order. Their low bits are the codes of section 3.2.2 of RFC 1951. */
  method AssignCodes(lengths: seq<nat>, maxbitlen: nat) returns (tree1d: seq<nat>)
    requires LengthsWithin(lengths, maxbitlen)
    ensures |tree1d| == |lengths|
    ensures TableCodes(tree1d, lengths) == Codes(lengths)
  {
    hide TableCodes, Codes, CodeNumber, Upcoming, Assigned;
    var nextcode := FirstCodes(lengths, maxbitlen);
    ghost var unused := CountUpTo(lengths, 0, |lengths|);
    var codes := new nat[|lengths|](_ => 0);
    NothingAssigned(nextcode[..], codes[..], lengths, unused, maxbitlen);
    for n := 0 to |lengths|
      invariant Upcoming(nextcode[..], lengths, unused, maxbitlen, n) && Assigned(codes[..], lengths, unused, n)
    {
      AssignNext(nextcode[..], codes[..], lengths, unused, maxbitlen, n);
      if lengths[n] != 0 {
        ghost var next, was := nextcode[..], codes[..];
        codes[n] := nextcode[lengths[n]];
        nextcode[lengths[n]] := nextcode[lengths[n]] + 1;
        assert codes[..] == was[n := next[lengths[n]]] && nextcode[..] == next[lengths[n] := next[lengths[n]] + 1];
      }
    }
    tree1d := codes[..];
    AllAssigned(tree1d, lengths, unused);
    OffsetCodes(tree1d, lengths, unused);
  }

  /** The next code of every length, counted from codes that the unused symbols have moved up. */
  ghost predicate Upcoming(next: seq<nat>, lengths: seq<nat>, unused: nat, maxbitlen: nat, n: nat) {
    && n <= |lengths| && |next| == maxbitlen + 1
    && forall l :: 1 <= l <= maxbitlen ==> next[l] == FirstCode(lengths, l) + unused * Pow2(l) + CountUpTo(lengths, l, n)
  }

  /** The codes of the symbols below n, moved up likewise. */
  ghost predicate Assigned(codes: seq<nat>, lengths: seq<nat>, unused: nat, n: nat) {
    && n <= |lengths| == |codes|
    && forall s :: 0 <= s < n && lengths[s] != 0 ==> codes[s] == CodeNumber(lengths, s) + unused * Pow2(lengths[s])
  }

  lemma NothingAssigned(next: seq<nat>, codes: seq<nat>, lengths: seq<nat>, unused: nat, maxbitlen: nat)
    requires |next| == maxbitlen + 1 && |codes| == |lengths|
    requires forall l :: 1 <= l <= maxbitlen ==> next[l] == FirstCode(lengths, l) + unused * Pow2(l)
    ensures Upcoming(next, lengths, unused, maxbitlen, 0) && Assigned(codes, lengths, unused, 0)
  {
  }

  lemma AssignNext(next: seq<nat>, codes: seq<nat>, lengths: seq<nat>, unused: nat, maxbitlen: nat, n: nat)
    requires Upcoming(next, lengths, unused, maxbitlen, n) && Assigned(codes, lengths, unused, n)
    requires n < |lengths| && LengthsWithin(lengths, maxbitlen)
    ensures |next| == maxbitlen + 1 && |codes| == |lengths| && lengths[n] < |next|
    ensures lengths[n] == 0 ==> Upcoming(next, lengths, unused, maxbitlen, n + 1) && Assigned(codes, lengths, unused, n + 1)
    ensures lengths[n] != 0 ==>
      && Upcoming(next[lengths[n] := next[lengths[n]] + 1], lengths, unused, maxbitlen, n + 1)
      && Assigned(codes[n := next[lengths[n]]], lengths, unused, n + 1)
  {
    hide FirstCode, Pow2;
  }

  lemma AllAssigned(codes: seq<nat>, lengths: seq<nat>, unused: nat)
    requires Assigned(codes, lengths, unused, |lengths|)
    ensures |codes| == |lengths|
    ensures forall s :: 0 <= s < |lengths| && lengths[s] != 0 ==> codes[s] == CodeNumber(lengths, s) + unused * Pow2(lengths[s])
  {
  }

  lemma OffsetCodes(tree1d: seq<nat>, lengths: seq<nat>, unused: nat)
    requires |tree1d| == |lengths|
    requires forall s :: 0 <= s < |lengths| && lengths[s] != 0 ==>
      tree1d[s] == CodeNumber(lengths, s) + unused * Pow2(lengths[s])
    ensures TableCodes(tree1d, lengths) == Codes(lengths)
  {
    forall s | 0 <= s < |lengths|
      ensures TableCodes(tree1d, lengths)[s] == Codes(lengths)[s]
    {
      CodeAt(lengths, s);
      TableCodeAt(tree1d, lengths, s);
      OffsetCode(CodeNumber(lengths, s), tree1d[s], unused, lengths[s]);
    }
  }

  lemma OffsetCode(code: nat, entry: nat, unused: nat, length: nat)
    requires length != 0 ==> entry == code + unused * Pow2(length)
    ensures CodeBits(entry, length) == CodeBits(code, length)
  {
    if length != 0 { CodeBitsIgnoreHigh(code, unused, length); }
  }

  lemma TableCodeAt(tree1d: seq<nat>, lengths: seq<nat>, s: nat)
    requires |tree1d| == |lengths| && s < |lengths|
    ensures TableCodes(tree1d, lengths)[s] == CodeBits(tree1d[s], lengths[s])
  {
  }

  lemma NextOffset(lengths: seq<nat>, bits: nat, prev: nat, unused: nat)
    requires 1 <= bits && unused == CountUpTo(lengths, 0, |lengths|)
    requires prev == if bits == 1 then 0 else FirstCode(lengths, bits - 1) + unused * Pow2(bits - 1)
    ensures (prev + CountUpTo(lengths, bits - 1, |lengths|)) * 2 == FirstCode(lengths, bits) + unused * Pow2(bits)
  {
    assert unused * Pow2(bits) == 2 * (unused * Pow2(bits - 1));
  }

  // ---- Decoding a symbol ----

  /** One more bit from column k. */
  lemma TreeStep(t: seq<nat>, numcodes: nat, tree: CodeTree, paths: seq<BitString>, k: nat, bits: BitString)
    requires Spells(t, numcodes, tree, paths) && k < |paths| && bits != []
    ensures |t| == 2 * numcodes && k < numcodes
    ensures
      var e := t[2 * k + B2N(bits[0])];
      && (e < numcodes ==> ReadFrom(tree, paths[k], bits) == Some((e, bits[1..])))
      && (e >= numcodes ==>
            0 <= e - numcodes < |paths| <= numcodes
            && ReadFrom(tree, paths[k], bits) == ReadFrom(tree, paths[e - numcodes], bits[1..]))
  {
    hide Spells, ReadFrom;
    SlotOf(t, numcodes, tree, paths, k, bits[0]);
    ReadOn(tree, paths[k], bits);
  }

  lemma SlotOf(t: seq<nat>, numcodes: nat, tree: CodeTree, paths: seq<BitString>, k: nat, bit: bool)
    requires Spells(t, numcodes, tree, paths) && k < |paths|
    ensures |t| == 2 * numcodes && |paths| <= numcodes && SlotFinal(t, numcodes, tree, paths, k, bit)
  {
    hide SlotFinal;
  }

  lemma ReadOn(tree: CodeTree, p: BitString, bits: BitString)
    requires bits != []
    ensures
      var q := p + [bits[0]];
      && (q in tree.leaves ==> ReadFrom(tree, p, bits) == Some((tree.leaves[q], bits[1..])))
      && (q !in tree.leaves && q in tree.inner ==> ReadFrom(tree, p, bits) == ReadFrom(tree, q, bits[1..]))
      && (q !in tree.leaves && q !in tree.inner ==> ReadFrom(tree, p, bits) == Some((0, bits[1..])))
  {
  }

  /** Follows the bits of the stream from the root to a leaf; -1 if they run out. The tree is never left. */
  method WalkTree(t: seq<nat>, numcodes: nat, data: seq<Byte>, bp: nat, ghost tree: CodeTree, ghost paths: seq<BitString>)
    returns (symbol: int, bp': nat)
    requires Spells(t, numcodes, tree, paths) && bp <= 8 * |data|
    ensures bp <= bp' <= 8 * |data|
    ensures match ReadFrom(tree, [], StreamBits(data)[bp..])
      case None => symbol == -1
      case Some((s, rest)) => symbol == s && rest == StreamBits(data)[bp'..]
  {
    hide StreamBits, ReadFrom, Spells;
    ghost var s := StreamBits(data);
    var treepos: nat := 0;
    bp' := bp;
    RootFirst(t, numcodes, tree, paths);
    while true
      invariant bp <= bp' <= |s| && treepos < |paths|
      invariant ReadFrom(tree, paths[treepos], s[bp'..]) == ReadFrom(tree, [], s[bp..])
      decreases |s| - bp'
    {
      if bp' >= 8 * |data| {
        NothingToRead(tree, paths[treepos], s[bp'..]);
        return -1, bp';
      }
      var bit := ReadBit(data, bp');
      assert s[bp'..][0] == bit && s[bp'..][1..] == s[bp' + 1..];
      TreeStep(t, numcodes, tree, paths, treepos, s[bp'..]);
      var ct := t[2 * treepos + B2N(bit)];
      bp' := bp' + 1;
      if ct < numcodes { return ct, bp'; }
      treepos := ct - numcodes;
      if treepos >= numcodes { assert false; }
    }
  }

  lemma RootFirst(t: seq<nat>, numcodes: nat, tree: CodeTree, paths: seq<BitString>)
    requires Spells(t, numcodes, tree, paths)
    ensures 0 < |paths| && paths[0] == []
  {
  }

  lemma NothingToRead(tree: CodeTree, p: BitString, bits: BitString)
    requires bits == []
    ensures ReadFrom(tree, p, bits) == None
  {
  }

  /** Code lengths, the codes themselves for the encoder and the tree for the decoder. */
  class HuffmanTree {
    var tree2d: seq<nat>
    var tree1d: seq<nat>
    var lengths: seq<nat>
    var maxbitlen: nat
    ghost var paths: seq<BitString>

    /** The tables stand for the canonical code of the lengths, and for its tree. */
    ghost predicate Ready()
      reads this
    {
      && |tree1d| == |lengths| > 0
      && TableCodes(tree1d, lengths) == Codes(lengths)
      && TreeOf(Codes(lengths)).Some? && Spells(tree2d, |lengths|, TreeOf(Codes(lengths)).value, paths)
    }

    constructor ()
      ensures lengths == []
    {
      tree2d, tree1d, lengths, maxbitlen, paths := [], [], [], 0, [];
    }

    /** Error 55 comes exactly where the tree of the codes cannot be grown; never for complete codes. */
    method MakeFromLengths(bitlen: seq<nat>, maxbitlen: nat) returns (error: nat)
      requires LengthsWithin(bitlen, maxbitlen) && 0 < 2 * |bitlen| <= UNSET
      modifies this
      ensures lengths == bitlen && this.maxbitlen == maxbitlen
      ensures match ReadTree(bitlen)
        case Err(e) => error == e
        case Ok(code) => error == 0 && Ready() && code == Codes(lengths)
      ensures FittingLengths(bitlen, maxbitlen) ==> (error == 0 <==> |InnerNodes(Codes(bitlen))| < |bitlen|)
      ensures CompleteLengths(bitlen, maxbitlen) ==> error == 0
    {
      hide InnerNodes, Codes, TableCodes, TreeOf, Spells, KraftTo, PrefixFree;
      lengths := bitlen;
      this.maxbitlen := maxbitlen;
      tree1d := AssignCodes(bitlen, maxbitlen);
      if FittingLengths(bitlen, maxbitlen) { ReadFittingTree(bitlen, maxbitlen); }
      if CompleteLengths(bitlen, maxbitlen) { ReadCompleteTree(bitlen, maxbitlen); }
      error, tree2d, paths := Make2DTree(tree1d, bitlen);
    }

    /** Reads the next symbol of the code; -1 if the bits run out. */
    method DecodeSymbol(data: seq<Byte>, bp: nat) returns (symbol: int, bp': nat)
      requires Ready() && bp <= 8 * |data|
      ensures bp <= bp' <= 8 * |data|
      ensures match NextSymbol(Codes(lengths), StreamBits(data)[bp..])
        case Some((s, rest)) => symbol == s < |lengths| && StreamBits(data)[bp'..] == rest
        case None => symbol == -1
    {
      hide StreamBits, ReadFrom, Codes, Spells, TreeOf;
      CodesSize(lengths);
      symbol, bp' := WalkTree(tree2d, |lengths|, data, bp, TreeOf(Codes(lengths)).value, paths);
    }
  }
}
