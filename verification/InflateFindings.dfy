/** A stream with an incomplete code that the decompressor accepts, and code lengths for too many codes. */
module InflateFindings {
  import opened Bits
  import opened BitStream
  import opened PrefixCode
  import opened Canonical
  import opened CodeTrees
  import opened HuffmanTrees
  import opened Tokens
  import opened CodeLengths
  import opened Format
  import opened Blocks
  import opened Inflate
  import opened Compressor

  /** The lengths of a code with a single symbol, n, which is the bit 0. */
  function OneCode(n: nat, size: nat): (lengths: seq<nat>)
    requires n < size
    ensures |lengths| == size && lengths[n] == 1 && forall s :: 0 <= s < size && s != n ==> lengths[s] == 0
  {
    PadTo(Copies(0, n) + [1], size)
  }

  lemma {:induction false} NoneCounted(lengths: seq<nat>, l: nat, n: nat)
    requires n <= |lengths| && forall s :: 0 <= s < n ==> lengths[s] != l
    ensures CountUpTo(lengths, l, n) == 0
  {
    if n > 0 { NoneCounted(lengths, l, n - 1); }
  }

  /** Symbol n has the code 0 and no other symbol has one. */
  ghost predicate OnlyCode(code: CodeTable, n: nat) {
    n < |code| && code[n] == [false] && forall s :: 0 <= s < |code| && s != n ==> code[s] == []
  }

  lemma OneCodeIs(n: nat, size: nat)
    requires n < size
    ensures OnlyCode(Codes(OneCode(n, size)), n)
  {
    hide OneCode, Codes;
    var lengths := OneCode(n, size);
    FirstCodeIsZero(lengths, n);
    forall s | 0 <= s < size && s != n ensures Codes(lengths)[s] == [] {
      assert |Codes(lengths)[s]| == lengths[s];
    }
  }

  lemma FirstCodeIsZero(lengths: seq<nat>, n: nat)
    requires n < |lengths| && lengths[n] == 1 && forall s :: 0 <= s < n ==> lengths[s] != 1
    ensures Codes(lengths)[n] == [false]
  {
    hide Codes, FirstCode, CountUpTo;
    NoneCounted(lengths, 1, n);
    FirstIsZero(lengths);
    CodeAt(lengths, n);
    assert CodeBits(0, 1) == [false];
  }

  lemma FirstIsZero(lengths: seq<nat>)
    ensures FirstCode(lengths, 1) == 0
  {
    assert FirstCode(lengths, 0) == 0;
  }

  /** The bit that is no code is read as symbol 0. */
  lemma OnlyCodeReads(code: CodeTable, n: nat, bit: bool, rest: BitString)
    requires OnlyCode(code, n) && |code| > 1
    ensures Readable(code) && NextSymbol(code, [bit] + rest) == Some((if bit then 0 else n, rest))
  {
    hide InnerNodes, ReadSymbol, NextSymbol;
    OnlyRoot(code, n);
    var bits := [bit] + rest;
    assert bits[1..] == rest && bits[..1] == [bit];
    NextIsRead(code, bits);
    if bit {
      forall s: nat ensures !(Present(code, s) && [true] <= code[s]) {
        assert [true][0];
      }
      assert DeadAt(code, bits, 1);
      ReadDead(code, bits, 1);
    } else {
      ReadCode(code, n, bits);
    }
  }

  lemma OnlyRoot(code: CodeTable, n: nat)
    requires OnlyCode(code, n) && |code| > 1
    ensures Readable(code)
  {
    hide InnerNodes;
    forall p | p in InnerNodes(code) ensures p == [] {
      var s: nat :| Present(code, s) && p < code[s];
    }
    SubsetCard(InnerNodes(code), {[]});
  }

  lemma NoCodesReadable(code: CodeTable)
    requires code != [] && forall s :: 0 <= s < |code| ==> code[s] == []
    ensures Readable(code)
  {
    hide InnerNodes;
    assert forall p :: !InnerPath(code, p);
    assert InnerNodes(code) == {};
  }

  // ---- A whole stream ----

  const CL_LENGTHS: seq<nat> := [2, 2, 0, 0, 0, 0, 0, 0, 0, 0, 0, 0, 0, 0, 0, 0, 0, 0, 1]

  const CL_SENT: seq<nat> := [0, 0, 1, 2, 0, 0, 0, 0, 0, 0, 0, 0, 0, 0, 0, 0, 0, 2]

  const RUNS: seq<Run> := [LongZeros(138), LongZeros(118), Single(1), Single(0)]

  /** The lengths of a code with the end code only, and no distance code. */
  const EndOnly: Header := Header(Copies(0, 256) + [1], [0], CL_LENGTHS, 18, RUNS)

  lemma ClComplete()
    ensures CompleteLengths(CL_LENGTHS, 7)
  {
    var cl := CL_LENGTHS;
    Pow2Small();
    assert KraftTo(cl, 7, 7, 2) == 64 by { assert KraftTo(cl, 7, 7, 1) == 32 by { assert KraftTo(cl, 7, 7, 0) == 0; } }
    KraftOfUnused(cl, 7, 2, 18);
    assert KraftTo(cl, 7, 7, 19) == KraftTo(cl, 7, 7, 18) + 64;
  }

  lemma {:induction false} KraftOfUnused(lengths: seq<nat>, maxLen: nat, m: nat, n: nat)
    requires m <= n <= |lengths| && forall s :: m <= s < n ==> lengths[s] == 0
    ensures KraftTo(lengths, maxLen, maxLen, n) == KraftTo(lengths, maxLen, maxLen, m)
  {
    if m < n { KraftOfUnused(lengths, maxLen, m, n - 1); }
  }

  lemma RunsFlatten()
    ensures Writable(RUNS) && FlattenRuns(RUNS) == [18, 127, 18, 107, 1, 0]
  {
    var a, b, c := RUNS[1..], RUNS[2..], RUNS[3..];
    FlattenOne(c, Single(0), []);
    FlattenOne(b, Single(1), c);
    FlattenOne(a, LongZeros(118), b);
    FlattenOne(RUNS, LongZeros(138), a);
  }

  lemma FlattenOne(runs: seq<Run>, r: Run, rest: seq<Run>)
    requires runs == [r] + rest && ValidRun(r, 1) && Writable(rest)
    ensures Writable(runs) && FlattenRuns(runs) == RunValues(r) + FlattenRuns(rest)
  {
    assert runs[0] == r && runs[1..] == rest;
  }

  lemma RunsExpand()
    ensures ValidRuns(RUNS, 0) && ExpandRuns([], RUNS) == Copies(0, 256) + [1] + [0]
  {
    var a, b, c := RUNS[1..], RUNS[2..], RUNS[3..];
    var some: seq<nat>, zeros: seq<nat> := Copies(0, 138), Copies(0, 256);
    var one := zeros + [1];
    OneRun(one, c, Single(0), []);
    OneRun(zeros, b, Single(1), c);
    assert some + Copies(0, 118) == zeros;
    OneRun(some, a, LongZeros(118), b);
    assert [] + some == some;
    OneRun([], RUNS, LongZeros(138), a);
  }

  lemma OneRun(lengths: seq<nat>, runs: seq<Run>, r: Run, rest: seq<Run>)
    requires runs == [r] + rest && ValidRun(r, |lengths|) && ValidRuns(rest, |lengths| + RunSize(r))
    ensures ValidRuns(runs, |lengths|) && ExpandRuns(lengths, runs) == ExpandRuns(ApplyRun(lengths, r), rest)
  {
    assert runs[0] == r && runs[1..] == rest;
  }

  lemma EndOnlyWritable()
    ensures WritableHeader(EndOnly)
  {
    hide CompleteLengths, Codes, ExpandRuns, ValidRuns, FlattenRuns, RunsHaveCodes, Writable;
    ClComplete();
    RunsFlatten();
    RunsExpand();
    RunsCoded();
  }

  lemma RunsCoded()
    ensures RunsHaveCodes(Codes(CL_LENGTHS), RUNS)
  {
    hide Codes;
    forall r | r in RUNS ensures Present(Codes(CL_LENGTHS), RunSymbol(r)) {
      assert |Codes(CL_LENGTHS)[RunSymbol(r)]| == CL_LENGTHS[RunSymbol(r)];
    }
  }

  ghost function StreamStart(): BitString {
    EndOnlyWritable();
    [true, false, true] + HeaderBits(EndOnly)
  }

  lemma TreesOfEndOnly(rest: BitString)
    ensures
      WritableHeader(EndOnly) &&
      ReadHeader(HeaderBits(EndOnly) + rest) == Ok((Codes(OneCode(256, 288)), Codes(Copies(0, 32)), rest))
  {
    hide HeaderBits, ReadTables, ReadTree, Codes, WritableHeader;
    EndOnlyWritable();
    ReadTablesBack(EndOnly, rest);
    var ll: seq<nat>, d: seq<nat> := OneCode(256, 288), Copies(0, 32);
    assert PadTo(EndOnly.ll, 288) == ll && PadTo(EndOnly.d, 32) == d;
    assert ReadTables(HeaderBits(EndOnly) + rest) == Ok((ll, d, rest)) && ll[256] == 1;
    OneCodeIs(256, 288);
    OnlyRoot(Codes(ll), 256);
    ReadReadableTree(ll);
    NoCodesReadable(Codes(d));
    ReadReadableTree(d);
    assert ReadTree(ll) == Ok(Codes(ll)) && ReadTree(d) == Ok(Codes(d));
  }

  /** The bit 1 has no code and is read as the byte 0; the bit 0 is the end code. */
  lemma DeadEndIsZero(rest: BitString)
    ensures ReadTokens(Codes(OneCode(256, 288)), Codes(Copies(0, 32)), [true, false] + rest, []) == Ok((rest, [0]))
  {
    hide NextSymbol, ReadMatch, Codes, OneCode, Readable;
    var ll, d := Codes(OneCode(256, 288)), Codes(Copies(0, 32));
    OneCodeIs(256, 288);
    assert [true, false] + rest == [true] + ([false] + rest);
    assert [] + [0] == [0];
    OnlyCodeReads(ll, 256, true, [false] + rest);
    OnlyCodeReads(ll, 256, false, rest);
    assert ReadItem(ll, d, [false] + rest) == Ok((End, rest));
    assert ReadTokens(ll, d, [false] + rest, [0]) == Ok((rest, [0]));
    assert ReadItem(ll, d, [true, false] + rest) == Ok((Item(Literal(0)), [false] + rest));
  }

  lemma StreamIsAccepted(rest: BitString)
    ensures ReadBlocks(StreamStart() + ([true, false] + rest), []) == Ok([0])
  {
    hide HeaderBits, ReadHeader, ReadTokens, WritableHeader, OneCode, Codes;
    EndOnlyWritable();
    TreesOfEndOnly([true, false] + rest);
    DeadEndIsZero(rest);
    var bits := StreamStart() + ([true, false] + rest);
    assert bits[3..] == HeaderBits(EndOnly) + ([true, false] + rest);
    assert bits[0] && !bits[1] && bits[2];
  }

  /** Writes the stream up to its two last bits. */
  method WriteStart(w: BitWriter)
    requires w.Valid() && w.Written() == []
    modifies w
    ensures w.Valid() && w.Written() == StreamStart()
  {
    hide HeaderBits, WritableHeader, BitWriter.Valid, BitWriter.Written, HuffmanTree.Ready, CompleteLengths, FittingLengths,
         FlattenRuns, InnerNodes, Codes, ReadTree, RUNS;
    w.AddBit(true);
    w.AddBit(false);
    w.AddBit(true);
    ClComplete();
    ReadCompleteTree(CL_LENGTHS, 7);
    RunsFlatten();
    EndOnlyWritable();
    var tree_cl := new HuffmanTree();
    var error := tree_cl.MakeFromLengths(CL_LENGTHS, 7);
    WriteHeader(w, [18, 127, 18, 107, 1, 0], CL_SENT, tree_cl, EndOnly, 257, 1);
  }

  /** A stream whose second to last bit leads out of the tree is accepted: that bit is read as the byte 0 (lodepng.c:597-600). */
  method DeadEndAccepted() returns (error: nat, out: seq<Byte>)
    ensures error == 0 && out == [0]
  {
    hide StreamStart, BitWriter.Valid, ReadBlocks, StreamBits;
    var w := new BitWriter();
    WriteStart(w);
    w.AddBit(true);
    w.AddBit(false);
    WrittenFirst(w);
    ghost var rest := StreamBits(w.data)[w.bp..];
    TwoBits(StreamStart(), rest);
    StreamIsAccepted(rest);
    var decoder := new Inflator(w.data);
    error := decoder.InflateStream();
    out := decoder.out;
  }

  lemma WrittenFirst(w: BitWriter)
    requires w.Valid()
    ensures w.bp <= |StreamBits(w.data)| && StreamBits(w.data) == w.Written() + StreamBits(w.data)[w.bp..]
  {
    hide StreamBits;
  }

  lemma TwoBits(a: BitString, rest: BitString)
    ensures a + [true] + [false] + rest == a + ([true, false] + rest)
  {
  }

  // ---- Too many codes ----

  lemma {:induction false} UnusedSkipped(g: Growing, code: CodeTable, m: nat, n: nat)
    requires m <= n <= |code| && forall s :: m <= s < n ==> code[s] == []
    ensures GrowCodes(g, code, m) == GrowCodes(g, code, n)
    decreases n - m
  {
    if m < n {
      NothingGrown(g, |code|, m);
      UnusedSkipped(g, code, m + 1, n);
    }
  }

  lemma OneBitCode(g: Growing, room: nat, n: nat, bit: bool)
    requires g.at == Some([]) && |g.tree.inner| < room && [bit] !in g.tree.inner
    ensures GrowCode(g, room, n, [bit], 0)
         == Some(if [bit] in g.tree.leaves then Growing(g.tree, None)
                 else Growing(CodeTree(g.tree.leaves[[bit] := n], g.tree.inner), Some([])))
  {
    var c: BitString := [bit];
    assert [] + [c[0]] == c;
    var next := GrowBit(g, room, n, c[0], true).value;
    assert GrowCode(next, room, n, c, 1) == Some(next);
  }

  /**
   * Three distance codes of one bit are not refused, although no prefix code has them: the third one leads out of
   * the tree and no code follows it. Error 55 is described as the error for such lengths (lodepng.c:573-574, 5863-5866).
   */
  lemma ThreeShortCodes()
    ensures
      var lengths := PadTo([1, 1, 1], 32);
      KraftTo(lengths, 15, 15, 32) > Pow2(15) && ReadTree(lengths) == Ok(Codes(lengths))
  {
    hide Codes, GrowCodes, GrowCode;
    var lengths := PadTo([1, 1, 1], 32);
    Pow2Small();
    KraftOfShort(lengths);
    KraftOfUnused(lengths, 15, 3, 32);
    ThreeCodes(lengths);
    var code := Codes(lengths);
    forall s | 3 <= s < 32 ensures code[s] == [] { assert |code[s]| == lengths[s]; }
    GrowThree(code);
  }

  lemma KraftOfShort(lengths: seq<nat>)
    requires |lengths| >= 3 && lengths[..3] == [1, 1, 1]
    ensures KraftTo(lengths, 15, 15, 3) == 3 * Pow2(14)
  {
    assert forall s :: 0 <= s < 3 ==> lengths[s] == lengths[..3][s];
    assert KraftTo(lengths, 15, 15, 0) == 0;
    assert KraftTo(lengths, 15, 15, 1) == Pow2(14);
    assert KraftTo(lengths, 15, 15, 2) == 2 * Pow2(14);
  }

  lemma ThreeCodes(lengths: seq<nat>)
    requires |lengths| >= 3 && lengths[..3] == [1, 1, 1]
    ensures Codes(lengths)[0] == [false] && Codes(lengths)[1] == [true] && Codes(lengths)[2] == [false]
  {
    hide Codes, FirstCode;
    assert forall s :: 0 <= s < 3 ==> lengths[s] == lengths[..3][s];
    FirstIsZero(lengths);
    assert CountUpTo(lengths, 1, 0) == 0;
    assert CountUpTo(lengths, 1, 1) == 1;
    assert CountUpTo(lengths, 1, 2) == 2;
    forall s | 0 <= s < 3 ensures Codes(lengths)[s] == CodeBits(s, 1) { CodeAt(lengths, s); }
    assert CodeBits(0, 1) == [false] && CodeBits(1, 1) == [true] && CodeBits(2, 1) == [false];
  }

  lemma GrowThree(code: CodeTable)
    requires |code| == 32 && code[0] == [false] && code[1] == [true] && code[2] == [false]
    requires forall s :: 3 <= s < 32 ==> code[s] == []
    ensures TreeOf(code).Some?
  {
    hide GrowCode;
    var first := Growing(CodeTree(map[[false] := 0], {[]}), Some([]));
    var second := Growing(CodeTree(map[[false] := 0, [true] := 1], {[]}), Some([]));
    var third := Growing(second.tree, None);
    OneBitCode(Root, 32, 0, false);
    OneBitCode(first, 32, 1, true);
    OneBitCode(second, 32, 2, false);
    UnusedSkipped(third, code, 3, 32);
    assert GrowCodes(third, code, 3).Some?;
    assert GrowCodes(second, code, 2).Some?;
    assert GrowCodes(first, code, 1).Some?;
  }
}
