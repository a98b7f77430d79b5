/** Trees from symbol frequencies, and writing the symbols of a block (lodepng.c:858-873, 1673-1699). */
module Deflate {
  import opened Bits
  import opened BitStream
  import opened PrefixCode
  import opened Canonical
  import opened CodeTrees
  import opened HuffmanTrees
  import opened Coins
  import opened PackageMinimum
  import opened PackageMerge
  import opened Tokens
  import opened Lz77
  import opened CodeLengths
  import opened Format
  import opened Blocks
  import opened Inflate

  /** Trims unused symbols at the end, keeping at least mincodes, and builds the tree of the rest. */
  method MakeFromFrequencies(tree: HuffmanTree, frequencies: seq<nat>, mincodes: nat, maxbitlen: nat) returns (error: nat)
    requires 2 <= mincodes <= |frequencies| && 2 * |frequencies| <= UNSET
    requires maxbitlen >= 1 && |frequencies| <= Pow2(maxbitlen)
    modifies tree
    ensures error == 0 && tree.Ready() && CompleteLengths(tree.lengths, maxbitlen)
    ensures mincodes <= |tree.lengths| <= |frequencies|
    ensures forall s :: 0 <= s < |frequencies| && frequencies[s] > 0 ==> s < |tree.lengths| && tree.lengths[s] > 0
    ensures Cheapest(frequencies[..|tree.lengths|], tree.lengths, maxbitlen)
  {
    hide Cheapest;
    var numcodes := |frequencies|;
    while frequencies[numcodes - 1] == 0 && numcodes > mincodes
      invariant mincodes <= numcodes <= |frequencies|
      invariant forall s :: numcodes <= s < |frequencies| ==> frequencies[s] == 0
    {
      numcodes := numcodes - 1;
    }
    var trimmed := frequencies[..numcodes];
    SinglesRow(trimmed, numcodes);
    var lengths;
    error, lengths := HuffmanCodeLengths(trimmed, maxbitlen);
    error := tree.MakeFromLengths(lengths, maxbitlen);
  }

  // ---- Symbol frequencies ----

  predicate TokenCounted(ll: seq<nat>, d: seq<nat>, t: Token)
    requires |ll| == 286 && |d| == 30 && Encodable([t])
  {
    assert t in [t];
    match t
    case Literal(b) => ll[b] > 0
    case Match(length, distance) =>
      ll[257 + CodeIndex(LENGTHBASE, length)] > 0 && d[CodeIndex(DISTANCEBASE, distance)] > 0
  }

  lemma FlattenSplit(tokens: seq<Token>, k: nat)
    requires Encodable(tokens) && k < |tokens|
    ensures Encodable(tokens[k..]) && Encodable(tokens[k + 1..]) && Encodable([tokens[k]])
    ensures Flatten(tokens[k..]) == TokenValues(tokens[k]) + Flatten(tokens[k + 1..])
  {
    var t, rest := tokens[k], tokens[k..];
    assert t in tokens;
    forall u | u in rest ensures u in tokens { }
    forall u | u in tokens[k + 1..] ensures u in tokens { }
    assert rest[0] == t && rest[1..] == tokens[k + 1..];
  }

  /** Where a token starts in the symbol vector, its symbols can be read off. */
  lemma TokenAt(values: seq<nat>, i: nat, t: Token, rest: seq<nat>)
    requires t.Match? ==> 3 <= t.length && 1 <= t.distance
    requires i <= |values| && values[i..] == TokenValues(t) + rest
    ensures i < |values| && (t.Literal? <==> values[i] <= 256)
    ensures t.Literal? ==> values[i] == t.value && values[i + 1..] == rest
    ensures t.Match? ==>
      var l, d := CodeIndex(LENGTHBASE, t.length), CodeIndex(DISTANCEBASE, t.distance);
      && i + 3 < |values| && values[i] == 257 + l && values[i + 2] == d
      && values[i + 1] == t.length - LENGTHBASE[l] && values[i + 3] == t.distance - DISTANCEBASE[d]
      && values[i + 4..] == rest
  {
    hide CodeIndex;
    var v := TokenValues(t);
    assert forall k :: 0 <= k < |v| ==> values[i + k] == values[i..][k] == v[k];
    assert values[i + |v|..] == values[i..][|v|..] == rest;
  }

  /** Counts how often each symbol is used; the end code always counts once. */
  method CountFrequencies(values: seq<nat>, ghost tokens: seq<Token>) returns (ll: seq<nat>, d: seq<nat>)
    requires Encodable(tokens) && values == Flatten(tokens)
    ensures |ll| == 286 && |d| == 30 && ll[256] == 1
    ensures forall k :: 0 <= k < |tokens| ==> Encodable([tokens[k]]) && TokenCounted(ll, d, tokens[k])
  {
    hide CodeIndex, TokenValues, Flatten;
    var frequencies_ll := new nat[286](_ => 0);
    var frequencies_d := new nat[30](_ => 0);
    var i := 0;
    ghost var n := 0;
    assert tokens[0..] == tokens;
    while i != |values|
      invariant i <= |values| && n <= |tokens| && Encodable(tokens[n..]) && values[i..] == Flatten(tokens[n..])
      invariant forall k :: 0 <= k < n ==>
        Encodable([tokens[k]]) && TokenCounted(frequencies_ll[..], frequencies_d[..], tokens[k])
      decreases |values| - i
    {
      if n == |tokens| { FlattenNothing(tokens[n..]); }
      FlattenSplit(tokens, n);
      TokenAt(values, i, tokens[n], Flatten(tokens[n + 1..]));
      ghost var t := tokens[n];
      assert t in [t];
      var symbol := values[i];
      if symbol > 256 {
        CodeIndexBound(LENGTHBASE, t.length);
        CodeIndexBound(DISTANCEBASE, t.distance);
      }
      frequencies_ll[symbol] := frequencies_ll[symbol] + 1;
      if symbol > 256 {
        var dist := values[i + 2];
        frequencies_d[dist] := frequencies_d[dist] + 1;
        i := i + 3;
      }
      i := i + 1;
      n := n + 1;
    }
    if n < |tokens| { FlattenSomething(tokens, n); }
    frequencies_ll[256] := 1;
    ll, d := frequencies_ll[..], frequencies_d[..];
  }

  lemma FlattenNothing(tokens: seq<Token>)
    requires Encodable(tokens) && tokens == []
    ensures Flatten(tokens) == []
  {
  }

  lemma FlattenSomething(tokens: seq<Token>, n: nat)
    requires Encodable(tokens) && n < |tokens|
    ensures Encodable(tokens[n..]) && Flatten(tokens[n..]) != []
  {
    FlattenSplit(tokens, n);
  }

  // ---- Writing symbols and tokens ----

  /** The code table a tree stands for once symbols that are not in it are counted as unused. */
  ghost function FullCodes(lengths: seq<nat>, n: nat): (code: CodeTable)
    requires |lengths| <= n
    ensures |code| == n
  {
    Codes(PadTo(lengths, n))
  }

  lemma FullCodeAt(lengths: seq<nat>, n: nat, s: nat)
    requires s < |lengths| <= n
    ensures FullCodes(lengths, n)[s] == Codes(lengths)[s]
  {
    CodesExtend(lengths, Copies(0, n - |lengths|));
  }

  method AddHuffmanSymbol(w: BitWriter, tree: HuffmanTree, symbol: nat)
    requires w.Valid() && tree.Ready() && symbol < |tree.lengths|
    modifies w
    ensures w.Valid() && w.Written() == old(w.Written()) + Codes(tree.lengths)[symbol]
  {
    hide Spells, TreeOf, BitWriter.Valid, BitWriter.Written, Codes;
    TableCodeAt(tree.tree1d, tree.lengths, symbol);
    w.AddBitsReversed(tree.tree1d[symbol], tree.lengths[symbol]);
  }

  /** The trees have a code for every symbol of the token. */
  ghost predicate TreesCover(ll: seq<nat>, d: seq<nat>, t: Token)
    requires Encodable([t])
  {
    assert t in [t];
    match t
    case Literal(b) => b < |ll| && ll[b] > 0
    case Match(length, distance) =>
      var l, m := 257 + CodeIndex(LENGTHBASE, length), CodeIndex(DISTANCEBASE, distance);
      l < |ll| && ll[l] > 0 && m < |d| && d[m] > 0
  }

  lemma CoverMeansCodes(ll: seq<nat>, d: seq<nat>, t: Token)
    requires |ll| <= NUM_DEFLATE_CODE_SYMBOLS && |d| <= NUM_DISTANCE_SYMBOLS
    requires Encodable([t]) && TreesCover(ll, d, t)
    ensures TokenHasCodes(FullCodes(ll, NUM_DEFLATE_CODE_SYMBOLS), FullCodes(d, NUM_DISTANCE_SYMBOLS), t)
  {
    hide CodeIndex, Codes;
    assert t in [t];
    if t.Match? {
      CodeIndexBound(LENGTHBASE, t.length);
      CodeIndexBound(DISTANCEBASE, t.distance);
    }
  }

  ghost predicate CanWrite(ll: seq<nat>, d: seq<nat>, t: Token) {
    && |ll| <= NUM_DEFLATE_CODE_SYMBOLS && |d| <= NUM_DISTANCE_SYMBOLS
    && Encodable([t]) && TreesCover(ll, d, t)
  }

  ghost function TreeTokenBits(ll: seq<nat>, d: seq<nat>, t: Token): BitString
    requires CanWrite(ll, d, t)
  {
    TokenBits(FullCodes(ll, NUM_DEFLATE_CODE_SYMBOLS), FullCodes(d, NUM_DISTANCE_SYMBOLS), t)
  }

  ghost predicate TokenStarts(values: seq<nat>, i: nat, t: Token, rest: seq<nat>) {
    && (t.Match? ==> 3 <= t.length && 1 <= t.distance)
    && i <= |values| && values[i..] == TokenValues(t) + rest
  }

  lemma TreeMatchBits(ll: seq<nat>, d: seq<nat>, t: Token)
    requires CanWrite(ll, d, t) && t.Match?
    ensures 3 <= t.length && 1 <= t.distance
    ensures
      var l, m := CodeIndex(LENGTHBASE, t.length), CodeIndex(DISTANCEBASE, t.distance);
      && l < 29 && m < 30 && 257 + l < |ll| && m < |d|
      && LENGTHBASE[l] <= t.length && DISTANCEBASE[m] <= t.distance
      && TreeTokenBits(ll, d, t)
         == Codes(ll)[257 + l] + LowBits(t.length - LENGTHBASE[l], LENGTHEXTRA[l]) +
            (Codes(d)[m] + LowBits(t.distance - DISTANCEBASE[m], DISTANCEEXTRA[m]))
  {
    hide CodeIndex, Codes, LowBits, PadTo;
    assert t in [t];
    var l, m := CodeIndex(LENGTHBASE, t.length), CodeIndex(DISTANCEBASE, t.distance);
    CodeIndexBound(LENGTHBASE, t.length);
    CodeIndexBound(DISTANCEBASE, t.distance);
    FullCodeAt(ll, NUM_DEFLATE_CODE_SYMBOLS, 257 + l);
    FullCodeAt(d, NUM_DISTANCE_SYMBOLS, m);
  }

  lemma TreeLiteralBits(ll: seq<nat>, d: seq<nat>, t: Token)
    requires CanWrite(ll, d, t) && t.Literal?
    ensures t.value < |ll| && TreeTokenBits(ll, d, t) == Codes(ll)[t.value]
  {
    hide Codes, PadTo;
    FullCodeAt(ll, NUM_DEFLATE_CODE_SYMBOLS, t.value);
  }

  /** What follows a length symbol: its extra bits, the distance symbol and the extra bits of the distance. */
  method WriteMatchTail(w: BitWriter, tree_d: HuffmanTree, length_index: nat, length_extra_bits: nat,
                        distance_code: nat, distance_extra_bits: nat)
    requires w.Valid() && tree_d.Ready() && length_index < 29 && distance_code < 30 && distance_code < |tree_d.lengths|
    modifies w
    ensures w.Valid()
    ensures w.Written() == old(w.Written()) + LowBits(length_extra_bits, LENGTHEXTRA[length_index]) +
      (Codes(tree_d.lengths)[distance_code] + LowBits(distance_extra_bits, DISTANCEEXTRA[distance_code]))
  {
    hide Codes, HuffmanTree.Ready, BitWriter.Valid, BitWriter.Written, LowBits;
    w.AddBits(length_extra_bits, LENGTHEXTRA[length_index]);
    AddHuffmanSymbol(w, tree_d, distance_code);
    w.AddBits(distance_extra_bits, DISTANCEEXTRA[distance_code]);
  }

  lemma Regroup4(a: BitString, b: BitString, c: BitString, d: BitString)
    ensures a + b + c + d == a + (b + c + d)
  {
  }

  /** One token of the symbol vector; the position after it. */
  method WriteToken(w: BitWriter, values: seq<nat>, i: nat, tree_ll: HuffmanTree, tree_d: HuffmanTree,
                    ghost t: Token, ghost rest: seq<nat>)
    returns (i': nat)
    requires w.Valid() && tree_ll.Ready() && tree_d.Ready()
    requires CanWrite(tree_ll.lengths, tree_d.lengths, t) && TokenStarts(values, i, t, rest)
    modifies w
    ensures i < i' <= |values| && values[i'..] == rest
    ensures w.Valid() && w.Written() == old(w.Written()) + TreeTokenBits(tree_ll.lengths, tree_d.lengths, t)
  {
    hide CodeIndex, Codes, HuffmanTree.Ready, BitWriter.Valid, BitWriter.Written, LowBits, TokenValues,
         CanWrite, TreeTokenBits;
    TokenAt(values, i, t, rest);
    var val := values[i];
    if t.Literal? {
      TreeLiteralBits(tree_ll.lengths, tree_d.lengths, t);
    } else {
      TreeMatchBits(tree_ll.lengths, tree_d.lengths, t);
    }
    AddHuffmanSymbol(w, tree_ll, val);
    i' := i + 1;
    if val > 256 {
      ghost var start := old(w.Written());
      WriteMatchTail(w, tree_d, val - 257, values[i + 1], values[i + 2], values[i + 3]);
      ghost var extra := LowBits(values[i + 1], LENGTHEXTRA[val - 257]);
      ghost var distance := Codes(tree_d.lengths)[values[i + 2]] + LowBits(values[i + 3], DISTANCEEXTRA[values[i + 2]]);
      Regroup4(start, Codes(tree_ll.lengths)[val], extra, distance);
      i' := i + 4;
    }
  }

  /** All tokens of the symbol vector. */
  method WriteLZ77data(w: BitWriter, values: seq<nat>, tree_ll: HuffmanTree, tree_d: HuffmanTree, ghost tokens: seq<Token>)
    requires w.Valid() && tree_ll.Ready() && tree_d.Ready()
    requires |tree_ll.lengths| <= NUM_DEFLATE_CODE_SYMBOLS && |tree_d.lengths| <= NUM_DISTANCE_SYMBOLS
    requires Encodable(tokens) && values == Flatten(tokens)
    requires forall k :: 0 <= k < |tokens| ==> CanWrite(tree_ll.lengths, tree_d.lengths, tokens[k])
    modifies w
    ensures w.Valid()
    ensures w.Written() == old(w.Written()) + TokensBits(FullCodes(tree_ll.lengths, NUM_DEFLATE_CODE_SYMBOLS),
                                                         FullCodes(tree_d.lengths, NUM_DISTANCE_SYMBOLS), tokens)
  {
    hide HuffmanTree.Ready, BitWriter.Valid, BitWriter.Written, CanWrite, Flatten, TokensBits, TokenBits, FullCodes, TokenValues;
    ghost var ll := FullCodes(tree_ll.lengths, NUM_DEFLATE_CODE_SYMBOLS);
    ghost var d := FullCodes(tree_d.lengths, NUM_DISTANCE_SYMBOLS);
    var i := 0;
    ghost var n := 0;
    assert tokens[0..] == tokens && tokens[..0] == [];
    TokensBitsNothing(ll, d, tokens[..0]);
    while i != |values|
      invariant i <= |values| && n <= |tokens| && Encodable(tokens[n..]) && values[i..] == Flatten(tokens[n..])
      invariant w.Valid() && tree_ll.Ready() && tree_d.Ready()
      invariant Encodable(tokens[..n]) && w.Written() == old(w.Written()) + TokensBits(ll, d, tokens[..n])
      decreases |values| - i
    {
      if n == |tokens| { FlattenNothing(tokens[n..]); }
      FlattenSplit(tokens, n);
      assert tokens[n] in tokens;
      TokensBitsAppend(ll, d, tokens, n);
      i := WriteToken(w, values, i, tree_ll, tree_d, tokens[n], Flatten(tokens[n + 1..]));
      n := n + 1;
    }
    if n < |tokens| { FlattenSomething(tokens, n); }
    assert tokens[..n] == tokens;
  }

  lemma TokensBitsNothing(ll: CodeTable, d: CodeTable, tokens: seq<Token>)
    requires |ll| >= 286 && |d| >= 30 && tokens == []
    ensures TokensBits(ll, d, tokens) == []
  {
  }

  lemma {:induction false} TokensBitsAppend(ll: CodeTable, d: CodeTable, tokens: seq<Token>, n: nat)
    requires |ll| >= 286 && |d| >= 30 && Encodable(tokens) && n < |tokens|
    ensures Encodable(tokens[..n]) && Encodable([tokens[n]]) && Encodable(tokens[..n + 1])
    ensures TokensBits(ll, d, tokens[..n + 1]) == TokensBits(ll, d, tokens[..n]) + TokenBits(ll, d, tokens[n])
  {
    hide TokenBits;
    assert forall u :: u in tokens[..n] ==> u in tokens;
    assert forall u :: u in tokens[..n + 1] ==> u in tokens;
    assert tokens[n] in tokens;
    if n == 0 {
      assert tokens[..1] == [tokens[0]] && tokens[..1][1..] == [];
    } else {
      var rest := tokens[1..];
      assert forall u :: u in rest ==> u in tokens;
      TokensBitsAppend(ll, d, rest, n - 1);
      assert tokens[..n][1..] == rest[..n - 1] && tokens[..n + 1][1..] == rest[..n];
    }
  }
}
