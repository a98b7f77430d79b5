/** Fixed and dynamic blocks as the compressor writes them (lodepng.c:1702-1993). */
module Compressor {
  import opened Bits
  import opened BitStream
  import opened PrefixCode
  import opened Canonical
  import opened CodeTrees
  import opened HuffmanTrees
  import opened Tokens
  import opened Lz77
  import opened CodeLengths
  import opened Format
  import opened Blocks
  import opened Inflate
  import opened Deflate

  // ---- The code length code of a dynamic block ----

  lemma FlattenRunsSplit(runs: seq<Run>, k: nat)
    requires Writable(runs) && k < |runs|
    ensures Writable(runs[k..]) && Writable(runs[k + 1..]) && ValidRun(runs[k], 1)
    ensures FlattenRuns(runs[k..]) == RunValues(runs[k]) + FlattenRuns(runs[k + 1..])
  {
    assert runs[k] in runs;
    assert forall r :: r in runs[k..] ==> r in runs;
    assert forall r :: r in runs[k + 1..] ==> r in runs;
    assert runs[k..][1..] == runs[k + 1..];
  }

  lemma FlattenRunsEnd(runs: seq<Run>, k: nat)
    requires Writable(runs) && k <= |runs|
    ensures Writable(runs[k..]) && (FlattenRuns(runs[k..]) == [] <==> k == |runs|)
  {
    if k < |runs| {
      FlattenRunsSplit(runs, k);
    } else {
      assert runs[k..] == [];
    }
  }

  /** Where a run starts in the vector, its symbol and extra value can be read off. */
  lemma RunAt(e: seq<nat>, i: nat, r: Run, rest: seq<nat>)
    requires ValidRun(r, 1) && i <= |e| && e[i..] == RunValues(r) + rest
    ensures i < |e| && e[i] == RunSymbol(r) < 19 && (r.Single? <==> e[i] <= 15)
    ensures r.Single? ==> e[i + 1..] == rest
    ensures !r.Single? ==> i + 1 < |e| && e[i + 1] == RunSize(r) - RepeatBase(e[i]) && e[i + 2..] == rest
  {
    var v := RunValues(r);
    assert forall k :: 0 <= k < |v| ==> e[i + k] == e[i..][k] == v[k];
    assert e[i + |v|..] == e[i..][|v|..] == rest;
  }

  method CountRuns(e: seq<nat>, ghost runs: seq<Run>) returns (frequencies: seq<nat>)
    requires Writable(runs) && e == FlattenRuns(runs)
    ensures |frequencies| == 19
    ensures forall r :: r in runs ==> RunSymbol(r) < 19 && frequencies[RunSymbol(r)] > 0
  {
    hide RunValues, FlattenRuns, RunSymbol;
    var counts := new nat[19](_ => 0);
    var i := 0;
    ghost var n := 0;
    assert runs[0..] == runs;
    while i != |e|
      invariant i <= |e| && n <= |runs| && Writable(runs[n..]) && e[i..] == FlattenRuns(runs[n..])
      invariant forall k :: 0 <= k < n ==> RunSymbol(runs[k]) < 19 && counts[RunSymbol(runs[k])] > 0
      decreases |e| - i
    {
      FlattenRunsEnd(runs, n);
      FlattenRunsSplit(runs, n);
      RunAt(e, i, runs[n], FlattenRuns(runs[n + 1..]));
      counts[e[i]] := counts[e[i]] + 1;
      if e[i] >= 16 { i := i + 1; }
      i := i + 1;
      n := n + 1;
    }
    FlattenRunsEnd(runs, n);
    frequencies := counts[..];
  }

  /** The code lengths of the code length alphabet in transmitted order, without zeros at the end. */
  method TrimClcl(cl: seq<nat>) returns (bitlen_cl: seq<nat>)
    requires |cl| == 19
    ensures 4 <= |bitlen_cl| <= 19
    ensures forall i :: 0 <= i < |bitlen_cl| ==> CLCL_ORDER[i] < 19 && bitlen_cl[i] == cl[CLCL_ORDER[i]]
    ensures forall k :: 0 <= k < 19 && CLCL_PLACE[k] >= |bitlen_cl| ==> cl[k] == 0
    ensures |bitlen_cl| == 4 || bitlen_cl[|bitlen_cl| - 1] != 0
  {
    forall i | 0 <= i < 19 ensures CLCL_ORDER[i] < 19 { ClclOrderInverse(i); }
    bitlen_cl := seq(19, i requires 0 <= i < 19 => cl[CLCL_ORDER[i]]);
    while bitlen_cl[|bitlen_cl| - 1] == 0 && |bitlen_cl| > 4
      invariant 4 <= |bitlen_cl| <= 19
      invariant forall i :: 0 <= i < |bitlen_cl| ==> bitlen_cl[i] == cl[CLCL_ORDER[i]]
      invariant forall i :: |bitlen_cl| <= i < 19 ==> cl[CLCL_ORDER[i]] == 0
    {
      bitlen_cl := bitlen_cl[..|bitlen_cl| - 1];
    }
    forall k | 0 <= k < 19 && CLCL_PLACE[k] >= |bitlen_cl| ensures cl[k] == 0 { ClclOrderInverse(k); }
  }

  /** Run-length encodes both tables of code lengths and builds the code to write them with. */
  method MakeCodeLengthCode(ll: seq<nat>, d: seq<nat>, tree_cl: HuffmanTree)
    returns (e: seq<nat>, bitlen_cl: seq<nat>, ghost h: Header)
    requires 257 <= |ll| <= 286 && 1 <= |d| <= 30
    requires CompleteLengths(ll, 15) && CompleteLengths(d, 15) && ll[256] != 0
    modifies tree_cl
    ensures ValidHeader(h) && h.ll == ll && h.d == d
    ensures tree_cl.Ready() && tree_cl.lengths == h.cl && |h.cl| == 19
    ensures e == FlattenRuns(h.runs) && |bitlen_cl| == h.hclen
    ensures forall i :: 0 <= i < |bitlen_cl| ==> CLCL_ORDER[i] < 19 && bitlen_cl[i] == h.cl[CLCL_ORDER[i]]
    ensures h.hclen == 4 || bitlen_cl[h.hclen - 1] != 0
  {
    hide KraftTo, Spells, TreeOf, ValidRuns, ExpandRuns, FlattenRuns, TableCodes, Codes, HuffmanTree.Ready;
    var bitlen_lld := ll + d;
    ghost var runs;
    e, runs := EncodeRuns(bitlen_lld);
    assert bitlen_lld[..|bitlen_lld|] == bitlen_lld;
    var frequencies_cl := CountRuns(e, runs);
    assert Pow2(7) == 128;
    var error := MakeFromFrequencies(tree_cl, frequencies_cl, 19, 7);
    bitlen_cl := TrimClcl(tree_cl.lengths);
    h := Header(ll, d, tree_cl.lengths, |bitlen_cl|, runs);
    forall r | r in runs ensures Present(Codes(h.cl), RunSymbol(r)) {
      assert |Codes(h.cl)[RunSymbol(r)]| == h.cl[RunSymbol(r)];
    }
  }

  /** Writes the runs with the code length code. */
  method WriteRuns(w: BitWriter, e: seq<nat>, tree_cl: HuffmanTree, ghost runs: seq<Run>)
    requires w.Valid() && tree_cl.Ready() && |tree_cl.lengths| == 19
    requires Writable(runs) && e == FlattenRuns(runs)
    modifies w
    ensures w.Valid() && w.Written() == old(w.Written()) + RunsBits(Codes(tree_cl.lengths), runs)
  {
    hide HuffmanTree.Ready, BitWriter.Valid, BitWriter.Written, Codes, FlattenRuns, RunValues, RunsBits, LowBits, RunSize;
    ghost var code := Codes(tree_cl.lengths);
    var i := 0;
    ghost var n := 0;
    assert runs[0..] == runs && runs[..0] == [];
    RunsBitsNothing(code, runs[..0]);
    while i != |e|
      invariant i <= |e| && n <= |runs| && Writable(runs[n..]) && e[i..] == FlattenRuns(runs[n..])
      invariant w.Valid() && tree_cl.Ready()
      invariant Writable(runs[..n]) && w.Written() == old(w.Written()) + RunsBits(code, runs[..n])
      decreases |e| - i
    {
      FlattenRunsEnd(runs, n);
      FlattenRunsSplit(runs, n);
      RunAt(e, i, runs[n], FlattenRuns(runs[n + 1..]));
      RunsBitsAppend(code, runs, n);
      ghost var before := w.Written();
      AddHuffmanSymbol(w, tree_cl, e[i]);
      if e[i] == 16 {
        w.AddBits(e[i + 1], 2);
        i := i + 1;
      } else if e[i] == 17 {
        w.AddBits(e[i + 1], 3);
        i := i + 1;
      } else if e[i] == 18 {
        w.AddBits(e[i + 1], 7);
        i := i + 1;
      }
      RunBitsAre(code, runs[n]);
      i := i + 1;
      n := n + 1;
    }
    FlattenRunsEnd(runs, n);
    assert runs[..n] == runs;
  }

  lemma RunBitsAre(code: CodeTable, r: Run)
    requires |code| == 19 && ValidRun(r, 1)
    ensures r.Single? ==> RunBits(code, r) == code[RunSymbol(r)]
    ensures !r.Single? ==>
      && RunSize(r) >= RepeatBase(RunSymbol(r))
      && RunBits(code, r)
         == code[RunSymbol(r)] + LowBits(RunSize(r) - RepeatBase(RunSymbol(r)), ExtraBits(RunSymbol(r)))
  {
  }

  lemma RunsBitsNothing(code: CodeTable, runs: seq<Run>)
    requires |code| == 19 && runs == []
    ensures RunsBits(code, runs) == []
  {
  }

  lemma {:induction false} RunsBitsAppend(code: CodeTable, runs: seq<Run>, n: nat)
    requires |code| == 19 && Writable(runs) && n < |runs|
    ensures Writable(runs[..n]) && Writable(runs[..n + 1]) && ValidRun(runs[n], 1)
    ensures RunsBits(code, runs[..n + 1]) == RunsBits(code, runs[..n]) + RunBits(code, runs[n])
  {
    hide RunBits;
    assert forall r :: r in runs[..n] ==> r in runs;
    assert forall r :: r in runs[..n + 1] ==> r in runs;
    assert runs[n] in runs;
    if n == 0 {
      assert runs[..1] == [runs[0]] && runs[..1][1..] == [];
    } else {
      var rest := runs[1..];
      assert forall r :: r in rest ==> r in runs;
      RunsBitsAppend(code, rest, n - 1);
      assert runs[..n][1..] == rest[..n - 1] && runs[..n + 1][1..] == rest[..n];
    }
  }

  method WriteClcl(w: BitWriter, bitlen_cl: seq<nat>, ghost cl: seq<nat>, n: nat)
    requires w.Valid() && |cl| == 19 && n == |bitlen_cl| <= 19
    requires forall i :: 0 <= i < n ==> CLCL_ORDER[i] < 19 && bitlen_cl[i] == cl[CLCL_ORDER[i]]
    modifies w
    ensures w.Valid() && w.Written() == old(w.Written()) + ClclBits(cl, n)
  {
    hide BitWriter.Valid, BitWriter.Written, LowBits;
    for i := 0 to n
      invariant w.Valid() && w.Written() == old(w.Written()) + ClclBits(cl, i)
    {
      w.AddBits(bitlen_cl[i], 3);
    }
  }

  /** Everything of a dynamic block before its compressed data. */
  method WriteHeader(w: BitWriter, e: seq<nat>, bitlen_cl: seq<nat>, tree_cl: HuffmanTree, ghost h: Header,
                     numcodes_ll: nat, numcodes_d: nat)
    requires w.Valid() && tree_cl.Ready() && tree_cl.lengths == h.cl && WritableHeader(h)
    requires e == FlattenRuns(h.runs) && |bitlen_cl| == h.hclen
    requires numcodes_ll == |h.ll| && numcodes_d == |h.d|
    requires forall i :: 0 <= i < |bitlen_cl| ==> CLCL_ORDER[i] < 19 && bitlen_cl[i] == h.cl[CLCL_ORDER[i]]
    requires h.hclen == 4 || bitlen_cl[h.hclen - 1] != 0
    modifies w
    ensures w.Valid() && w.Written() == old(w.Written()) + HeaderBits(h)
  {
    hide HuffmanTree.Ready, BitWriter.Valid, BitWriter.Written, Codes, RunsBits, LowBits, FlattenRuns, ClclBits,
         WritableHeader, HeaderBits;
    HeaderParts(h);
    var HLIT, HDIST, HCLEN := numcodes_ll - 257, numcodes_d - 1, |bitlen_cl| - 4;
    // a second trimming loop stands here in the source; the table is trimmed already, so it never runs
    if bitlen_cl[HCLEN + 4 - 1] == 0 && HCLEN > 0 { assert false; }
    ghost var start := w.Written();
    w.AddBits(HLIT, 5);
    w.AddBits(HDIST, 5);
    w.AddBits(HCLEN, 4);
    WriteClcl(w, bitlen_cl, h.cl, HCLEN + 4);
    WriteRuns(w, e, tree_cl, h.runs);
    Regroup6(start, LowBits(HLIT, 5), LowBits(HDIST, 5), LowBits(HCLEN, 4), ClclBits(h.cl, h.hclen),
             RunsBits(Codes(h.cl), h.runs));
  }

  lemma HeaderParts(h: Header)
    requires WritableHeader(h)
    ensures 257 <= |h.ll| && 1 <= |h.d| && |h.cl| == 19 && 4 <= h.hclen <= 19 && Writable(h.runs)
    ensures HeaderBits(h) ==
      LowBits(|h.ll| - 257, 5) + LowBits(|h.d| - 1, 5) + LowBits(h.hclen - 4, 4) +
      ClclBits(h.cl, h.hclen) + RunsBits(Codes(h.cl), h.runs)
  {
    hide CompleteLengths, ExpandRuns, ValidRuns, RunsHaveCodes, Codes, LowBits, ClclBits, RunsBits;
  }

  lemma Regroup6(s: BitString, a: BitString, b: BitString, c: BitString, d: BitString, e: BitString)
    ensures s + a + b + c + d + e == s + (a + b + c + d + e)
  {
  }

  // ---- Blocks ----

  /** What is wrong with the LZ77 settings, as error numbers of the source; 0 if nothing. */
  function WindowError(windowsize: nat): nat {
    if windowsize == 0 || windowsize > 32768 then 60 else if !IsPowerOfTwo(windowsize) then 90 else 0
  }

  function LiteralTokens(data: seq<Byte>): (tokens: seq<Token>)
    ensures |tokens| == |data| && forall k :: 0 <= k < |data| ==> tokens[k] == Literal(data[k])
  {
    seq(|data|, k requires 0 <= k < |data| => Literal(data[k]))
  }

  lemma {:induction false} LiteralsExpand(out: seq<Byte>, data: seq<Byte>)
    ensures Encodable(LiteralTokens(data)) && ValidTokens(LiteralTokens(data), |out|)
    ensures Expand(out, LiteralTokens(data)) == out + data && Flatten(LiteralTokens(data)) == data
    decreases |data|
  {
    if data == [] {
    } else {
      LiteralsExpand(out + [data[0]], data[1..]);
      assert LiteralTokens(data)[1..] == LiteralTokens(data[1..]);
      assert out + [data[0]] + data[1..] == out + data;
    }
  }

  /** The literal/length and distance symbols used are those of fixed trees. */
  lemma FixedTreesCover(t: Token)
    requires Encodable([t])
    ensures CanWrite(FixedLitLenLengths(), FixedDistanceLengths(), t)
  {
    hide CodeIndex;
    assert t in [t];
    if t.Match? {
      CodeIndexBound(LENGTHBASE, t.length);
      CodeIndexBound(DISTANCEBASE, t.distance);
    }
  }

  lemma OneEncodable(tokens: seq<Token>, k: nat)
    requires Encodable(tokens) && k < |tokens|
    ensures Encodable([tokens[k]])
  {
    assert tokens[k] in tokens;
  }

  lemma AllFixedWritable(tokens: seq<Token>)
    requires Encodable(tokens)
    ensures AllWritable(FixedLitLenLengths(), FixedDistanceLengths(), tokens)
  {
    hide CanWrite, FixedLitLenLengths, FixedDistanceLengths;
    forall k | 0 <= k < |tokens| ensures CanWrite(FixedLitLenLengths(), FixedDistanceLengths(), tokens[k]) {
      OneEncodable(tokens, k);
      FixedTreesCover(tokens[k]);
    }
  }

  /** A block was written: the stretch of data it stands for and its bits. */
  ghost predicate BlockWritten(data: seq<Byte>, datapos: nat, dataend: nat, b: Block, final: bool,
                               before: BitString, after: BitString)
  {
    && datapos <= dataend <= |data|
    && ValidBlock(b, datapos) && ApplyBlock(data[..datapos], b) == data[..dataend]
    && after == before + BlockBits(b, final, |before|)
  }

  ghost function TreeBodyBits(ll: seq<nat>, d: seq<nat>, tokens: seq<Token>): BitString
    requires |ll| <= NUM_DEFLATE_CODE_SYMBOLS && |d| <= NUM_DISTANCE_SYMBOLS && Encodable(tokens)
  {
    CompressedBits(FullCodes(ll, NUM_DEFLATE_CODE_SYMBOLS), FullCodes(d, NUM_DISTANCE_SYMBOLS), tokens)
  }

  ghost predicate AllWritable(ll: seq<nat>, d: seq<nat>, tokens: seq<Token>) {
    && 257 <= |ll| <= NUM_DEFLATE_CODE_SYMBOLS && |d| <= NUM_DISTANCE_SYMBOLS && Encodable(tokens)
    && forall k :: 0 <= k < |tokens| ==> CanWrite(ll, d, tokens[k])
  }

  /** Compressed data and end code of a block. */
  method WriteBody(w: BitWriter, values: seq<nat>, tree_ll: HuffmanTree, tree_d: HuffmanTree, ghost tokens: seq<Token>)
    requires w.Valid() && tree_ll.Ready() && tree_d.Ready()
    requires AllWritable(tree_ll.lengths, tree_d.lengths, tokens) && values == Flatten(tokens)
    modifies w
    ensures w.Valid() && w.Written() == old(w.Written()) + TreeBodyBits(tree_ll.lengths, tree_d.lengths, tokens)
  {
    hide HuffmanTree.Ready, BitWriter.Valid, BitWriter.Written, CanWrite, TokensBits, FullCodes, Codes;
    WriteLZ77data(w, values, tree_ll, tree_d, tokens);
    AddHuffmanSymbol(w, tree_ll, 256);
    FullCodeAt(tree_ll.lengths, NUM_DEFLATE_CODE_SYMBOLS, 256);
  }

  method WriteBlockStart(w: BitWriter, final: bool, low: bool, high: bool)
    requires w.Valid()
    modifies w
    ensures w.Valid() && w.Written() == old(w.Written()) + [final, low, high]
  {
    hide BitWriter.Valid, BitWriter.Written;
    w.AddBit(final);
    w.AddBit(low);
    w.AddBit(high);
  }

  /** A block with the fixed trees. */
  method DeflateFixed(w: BitWriter, hash: Hash, data: seq<Byte>, datapos: nat, dataend: nat,
                      use_lz77: bool, settings: Settings, final: bool)
    returns (error: nat, ghost b: Block)
    requires w.Valid() && datapos <= dataend <= |data|
    requires hash.windowsize == settings.windowsize && (use_lz77 ==> hash.Describes(data, datapos - 1))
    modifies w, hash.Repr()
    ensures error == if use_lz77 then WindowError(settings.windowsize) else 0
    ensures error == 0 ==> w.Valid() && (use_lz77 ==> hash.Describes(data, dataend - 1))
    ensures error == 0 ==> BlockWritten(data, datapos, dataend, b, final, old(w.Written()), w.Written())
  {
    hide HuffmanTree.Ready, BitWriter.Valid, BitWriter.Written, Hash.Describes, Hash.Shape, TreeBodyBits,
         FixedLitLenLengths, FixedDistanceLengths, AllWritable, Codes, Expand, IsPowerOfTwo, Flatten;
    var tree_ll := new HuffmanTree();
    var tree_d := new HuffmanTree();
    GenerateFixedLitLenTree(tree_ll);
    GenerateFixedDistanceTree(tree_d);
    WriteBlockStart(w, final, true, false);
    var values;
    ghost var tokens;
    if use_lz77 {
      error, values, tokens := EncodeLZ77(hash, data, datapos, dataend, settings);
      if error != 0 { b := Fixed([]); return; }
    } else {
      error, values, tokens := 0, data[datapos..dataend], LiteralTokens(data[datapos..dataend]);
      LiteralsExpand(data[..datapos], data[datapos..dataend]);
      assert data[..datapos] + data[datapos..dataend] == data[..dataend];
    }
    b := Fixed(tokens);
    AllFixedWritable(tokens);
    WriteBody(w, values, tree_ll, tree_d, tokens);
    FixedBlock(tokens, datapos, final, old(w.Written()), w.Written());
  }

  lemma FixedBlock(tokens: seq<Token>, datapos: nat, final: bool, before: BitString, after: BitString)
    requires Encodable(tokens) && ValidTokens(tokens, datapos)
    requires after == before + [final, true, false] + TreeBodyBits(FixedLitLenLengths(), FixedDistanceLengths(), tokens)
    ensures ValidBlock(Fixed(tokens), datapos)
    ensures after == before + BlockBits(Fixed(tokens), final, |before|)
  {
    hide CompressedBits, FixedLitLenLengths, FixedDistanceLengths, Codes, ValidTokens;
    PadNothing(FixedLitLenLengths());
    PadNothing(FixedDistanceLengths());
    assert ValidBlock(Fixed(tokens), datapos);
  }

  lemma PadNothing(lengths: seq<nat>)
    ensures FullCodes(lengths, |lengths|) == Codes(lengths)
  {
    assert PadTo(lengths, |lengths|) == lengths;
  }

  /**
   * Without LZ77 the source sizes its vector for the block but indexes it by the position in the
   * whole input (lodepng.c:1769-1770), so it stays inside only for a block that starts at 0.
   */
  method CopyLiterals(data: seq<Byte>, datapos: nat, dataend: nat) returns (ok: bool, values: seq<nat>)
    requires datapos <= dataend <= |data|
    ensures ok <==> datapos == 0 || datapos == dataend
    ensures ok ==> values == data[datapos..dataend]
  {
    var datasize := dataend - datapos;
    var lz77_encoded := new nat[datasize];
    for i := datapos to dataend
      invariant datapos < i ==> i <= datasize
      invariant datapos == 0 ==> forall k :: 0 <= k < i ==> lz77_encoded[k] == data[k]
    {
      if i >= lz77_encoded.Length { return false, []; }
      lz77_encoded[i] := data[i];
    }
    ok := true;
    values := lz77_encoded[..];
  }

  /** The symbols of the data, with or without LZ77. */
  method SymbolsOf(hash: Hash, data: seq<Byte>, datapos: nat, dataend: nat, use_lz77: bool, settings: Settings)
    returns (error: nat, values: seq<nat>, ghost tokens: seq<Token>)
    requires datapos <= dataend <= |data|
    requires hash.windowsize == settings.windowsize && (use_lz77 ==> hash.Describes(data, datapos - 1))
    modifies hash.Repr()
    ensures error ==
      if use_lz77 then WindowError(settings.windowsize)
      else if datapos == 0 || datapos == dataend then 0
      else OUT_OF_BOUNDS
    ensures error == 0 ==> (use_lz77 ==> hash.Describes(data, dataend - 1))
    ensures error == 0 ==>
      && Encodable(tokens) && values == Flatten(tokens)
      && ValidTokens(tokens, datapos) && Expand(data[..datapos], tokens) == data[..dataend]
  {
    hide Hash.Describes, Hash.Shape, Expand, Flatten, IsPowerOfTwo;
    if use_lz77 {
      error, values, tokens := EncodeLZ77(hash, data, datapos, dataend, settings);
    } else {
      var ok;
      ok, values := CopyLiterals(data, datapos, dataend);
      error, tokens := if ok then 0 else OUT_OF_BOUNDS, LiteralTokens(data[datapos..dataend]);
      LiteralsExpand(data[..datapos], data[datapos..dataend]);
      assert data[..datapos] + data[datapos..dataend] == data[..dataend];
    }
  }

  /** Trees made for exactly the symbols of the tokens. */
  method MakeTrees(values: seq<nat>, tree_ll: HuffmanTree, tree_d: HuffmanTree, ghost tokens: seq<Token>)
    requires tree_ll != tree_d && Encodable(tokens) && values == Flatten(tokens)
    modifies tree_ll, tree_d
    ensures tree_ll.Ready() && tree_d.Ready() && CompleteLengths(tree_ll.lengths, 15) && CompleteLengths(tree_d.lengths, 15)
    ensures 257 <= |tree_ll.lengths| <= 286 && 2 <= |tree_d.lengths| <= 30 && tree_ll.lengths[256] > 0
    ensures AllWritable(tree_ll.lengths, tree_d.lengths, tokens)
  {
    hide HuffmanTree.Ready, CodeIndex, Flatten, CompleteLengths;
    var frequencies_ll, frequencies_d := CountFrequencies(values, tokens);
    Pow2Small();
    var error := MakeFromFrequencies(tree_ll, frequencies_ll, 257, 15);
    error := MakeFromFrequencies(tree_d, frequencies_d, 2, 15);
    forall k | 0 <= k < |tokens| ensures CanWrite(tree_ll.lengths, tree_d.lengths, tokens[k]) {
      CountedMeansCovered(frequencies_ll, frequencies_d, tree_ll.lengths, tree_d.lengths, tokens[k]);
    }
  }

  lemma CountedMeansCovered(fll: seq<nat>, fd: seq<nat>, ll: seq<nat>, d: seq<nat>, t: Token)
    requires |fll| == 286 && |fd| == 30 && |ll| <= 286 && |d| <= 30
    requires Encodable([t]) && TokenCounted(fll, fd, t)
    requires forall s :: 0 <= s < 286 && fll[s] > 0 ==> s < |ll| && ll[s] > 0
    requires forall s :: 0 <= s < 30 && fd[s] > 0 ==> s < |d| && d[s] > 0
    ensures CanWrite(ll, d, t)
  {
    hide CodeIndex;
    assert t in [t];
    if t.Match? {
      CodeIndexBound(LENGTHBASE, t.length);
      CodeIndexBound(DISTANCEBASE, t.distance);
    }
  }

  /** A block with trees of its own. */
  method DeflateDynamic(w: BitWriter, hash: Hash, data: seq<Byte>, datapos: nat, dataend: nat,
                        use_lz77: bool, settings: Settings, final: bool)
    returns (error: nat, ghost b: Block)
    requires w.Valid() && datapos <= dataend <= |data|
    requires hash.windowsize == settings.windowsize && (use_lz77 ==> hash.Describes(data, datapos - 1))
    modifies w, hash.Repr()
    ensures error ==
      if use_lz77 then WindowError(settings.windowsize)
      else if datapos == 0 || datapos == dataend then 0
      else OUT_OF_BOUNDS
    ensures error == 0 ==> w.Valid() && (use_lz77 ==> hash.Describes(data, dataend - 1))
    ensures error == 0 ==> BlockWritten(data, datapos, dataend, b, final, old(w.Written()), w.Written())
  {
    hide BitWriter.Valid, BitWriter.Written, Hash.Describes, Hash.Shape, Expand, IsPowerOfTwo, Flatten, ValidBlock, BlockBits,
         ValidTokens;
    b := Fixed([]);
    var values;
    ghost var tokens;
    error, values, tokens := SymbolsOf(hash, data, datapos, dataend, use_lz77, settings);
    if error != 0 { return; }
    b := WriteDynamic(w, values, final, tokens, datapos);
  }

  /** The three trees of a dynamic block, its header and its symbols. */
  method WriteDynamic(w: BitWriter, values: seq<nat>, final: bool, ghost tokens: seq<Token>, ghost datapos: nat)
    returns (ghost b: Block)
    requires w.Valid() && Encodable(tokens) && values == Flatten(tokens) && ValidTokens(tokens, datapos)
    modifies w
    ensures b.Dynamic? && b.tokens == tokens && ValidBlock(b, datapos)
    ensures w.Valid() && w.Written() == old(w.Written()) + BlockBits(b, final, |old(w.Written())|)
  {
    hide BitWriter.Valid, BitWriter.Written, CompressedBits, HuffmanTree.Ready, Codes, Flatten, CompleteLengths, ValidHeader,
         ValidBlock, BlockBits, HeaderBits, TreeBodyBits, CanWrite, ValidTokens;
    var tree_ll := new HuffmanTree();
    var tree_d := new HuffmanTree();
    var tree_cl := new HuffmanTree();
    MakeTrees(values, tree_ll, tree_d, tokens);
    var e, bitlen_cl;
    ghost var h;
    e, bitlen_cl, h := MakeCodeLengthCode(tree_ll.lengths, tree_d.lengths, tree_cl);
    WriteBlockStart(w, final, false, true);
    ValidIsWritable(h);
    WriteHeader(w, e, bitlen_cl, tree_cl, h, |tree_ll.lengths|, |tree_d.lengths|);
    WriteBody(w, values, tree_ll, tree_d, tokens);
    assert tree_ll.lengths[256] != 0;
    b := Dynamic(h, tokens);
    CanWriteMeansCodes(tree_ll.lengths, tree_d.lengths, tokens);
    DynamicBlock(h, tokens, datapos, final, old(w.Written()), w.Written());
  }

  lemma CanWriteMeansCodes(ll: seq<nat>, d: seq<nat>, tokens: seq<Token>)
    requires AllWritable(ll, d, tokens)
    ensures TokensHaveCodes(FullCodes(ll, NUM_DEFLATE_CODE_SYMBOLS), FullCodes(d, NUM_DISTANCE_SYMBOLS), tokens)
  {
    hide TokenHasCodes, TreesCover, FullCodes;
    forall t | t in tokens
      ensures TokenHasCodes(FullCodes(ll, NUM_DEFLATE_CODE_SYMBOLS), FullCodes(d, NUM_DISTANCE_SYMBOLS), t)
    {
      var k: nat :| k < |tokens| && tokens[k] == t;
      CoverMeansCodes(ll, d, t);
    }
  }

  lemma DynamicBlock(h: Header, tokens: seq<Token>, datapos: nat, final: bool, before: BitString, after: BitString)
    requires ValidHeader(h) && Encodable(tokens) && ValidTokens(tokens, datapos)
    requires |h.ll| <= NUM_DEFLATE_CODE_SYMBOLS && |h.d| <= NUM_DISTANCE_SYMBOLS
    requires TokensHaveCodes(FullCodes(h.ll, NUM_DEFLATE_CODE_SYMBOLS), FullCodes(h.d, NUM_DISTANCE_SYMBOLS), tokens)
    requires after == before + [final, false, true] + HeaderBits(h) + TreeBodyBits(h.ll, h.d, tokens)
    ensures ValidBlock(Dynamic(h, tokens), datapos)
    ensures after == before + BlockBits(Dynamic(h, tokens), final, |before|)
  {
    hide ValidHeader, HeaderBits, CompressedBits, TokensHaveCodes, ValidTokens, Codes;
    assert ValidBlock(Dynamic(h, tokens), datapos);
  }
}
