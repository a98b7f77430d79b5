/** Deflate blocks: their printed form, the reference decoder of whole streams, and their round trip. */
module Blocks {
  import opened Bits
  import opened BitStream
  import opened PrefixCode
  import opened Canonical
  import opened CodeTrees
  import opened Tokens
  import opened CodeLengths
  import opened Format

  /** The three code length tables of a dynamic block, and how the first two are written. */
  datatype Header = Header(ll: seq<nat>, d: seq<nat>, cl: seq<nat>, hclen: nat, runs: seq<Run>)

  datatype Block = Stored(data: seq<Byte>) | Fixed(tokens: seq<Token>) | Dynamic(header: Header, tokens: seq<Token>)

  /** Where symbol k of the code length alphabet stands in the transmitted order. */
  const CLCL_PLACE: seq<nat> := [3, 17, 15, 13, 11, 9, 7, 5, 4, 6, 8, 10, 12, 14, 16, 18, 0, 1, 2]

  /** Lengths of symbols that are not transmitted are zero. */
  function PadTo(lengths: seq<nat>, n: nat): (r: seq<nat>)
    requires |lengths| <= n
    ensures |r| == n
  {
    lengths + Copies(0, n - |lengths|)
  }

  function FixedLitLenLengths(): (s: seq<nat>)
    ensures |s| == NUM_DEFLATE_CODE_SYMBOLS
  {
    seq(NUM_DEFLATE_CODE_SYMBOLS, i => if i <= 143 then 8 else if i <= 255 then 9 else if i <= 279 then 7 else 8)
  }

  function FixedDistanceLengths(): (s: seq<nat>)
    ensures |s| == NUM_DISTANCE_SYMBOLS
  {
    seq(NUM_DISTANCE_SYMBOLS, i => 5)
  }

  // ---- Headers of dynamic blocks ----

  /** The tables can be written down as RFC 1951 section 3.2.7 says. */
  ghost predicate WritableHeader(h: Header) {
    && 257 <= |h.ll| <= 286 && 1 <= |h.d| <= 30 && |h.cl| == 19 && 4 <= h.hclen <= 19
    && CompleteLengths(h.cl, 7)
    && (forall k :: 0 <= k < 19 && CLCL_PLACE[k] >= h.hclen ==> h.cl[k] == 0)
    && Writable(h.runs) && RunsHaveCodes(Codes(h.cl), h.runs)
    && ValidRuns(h.runs, 0) && ExpandRuns([], h.runs) == h.ll + h.d
  }

  /** Everything asked of a header for complete codes; the end code must be among them. */
  ghost predicate ValidHeader(h: Header) {
    WritableHeader(h) && CompleteLengths(h.ll, 15) && CompleteLengths(h.d, 15) && h.ll[256] != 0
  }

  lemma ValidIsWritable(h: Header)
    requires ValidHeader(h)
    ensures WritableHeader(h)
  {
  }

  function ClclBits(cl: seq<nat>, n: nat): (s: BitString)
    requires |cl| == 19 && n <= 19
    ensures |s| == 3 * n
  {
    if n == 0 then [] else ClclBits(cl, n - 1) + LowBits(cl[CLCL_ORDER[n - 1]], 3)
  }

  ghost function HeaderBits(h: Header): BitString
    requires WritableHeader(h)
  {
    LowBits(|h.ll| - 257, 5) + LowBits(|h.d| - 1, 5) + LowBits(h.hclen - 4, 4) +
    ClclBits(h.cl, h.hclen) + RunsBits(Codes(h.cl), h.runs)
  }

  /** The code length code lengths, three bits each in transmitted order, zero where none was sent. */
  function ReadClcl(bits: BitString, n: nat): (cl: seq<nat>)
    requires 3 * n <= |bits|
    ensures |cl| == 19
  {
    seq(19, k requires 0 <= k < 19 =>
      if CLCL_PLACE[k] < n then Value(bits[3 * CLCL_PLACE[k]..3 * CLCL_PLACE[k] + 3]) else 0)
  }

  /** Reference reading of the code lengths of a dynamic block, after its counts: both tables at full size, and the bits left. */
  ghost function ReadTablesOf(bits: BitString, hlit: nat, hdist: nat, hclen: nat): (r: Result<(seq<nat>, seq<nat>, BitString)>)
    requires hlit <= NUM_DEFLATE_CODE_SYMBOLS && hdist <= NUM_DISTANCE_SYMBOLS
    ensures r.Ok? ==>
      |r.value.0| == NUM_DEFLATE_CODE_SYMBOLS && |r.value.1| == NUM_DISTANCE_SYMBOLS && |r.value.2| <= |bits|
  {
    if |bits| < 3 * hclen then Err(50) else
    match ReadTree(ReadClcl(bits, hclen))
    case Err(e) => Err(e)
    case Ok(code) =>
      match ReadLengths(code, bits[3 * hclen..], [], hlit + hdist)
      case Err(e) => Err(e)
      case Ok((lengths, rest)) =>
        Ok((PadTo(lengths[..hlit], NUM_DEFLATE_CODE_SYMBOLS), PadTo(lengths[hlit..], NUM_DISTANCE_SYMBOLS), rest))
  }

  ghost function ReadTables(bits: BitString): (r: Result<(seq<nat>, seq<nat>, BitString)>)
    ensures r.Ok? ==>
      |r.value.0| == NUM_DEFLATE_CODE_SYMBOLS && |r.value.1| == NUM_DISTANCE_SYMBOLS && |r.value.2| <= |bits|
  {
    if |bits| < 14 then Err(49) else
    CountsInRange(bits);
    ReadTablesOf(bits[14..], Value(bits[..5]) + 257, Value(bits[5..10]) + 1, Value(bits[10..14]) + 4)
  }

  lemma CountsInRange(bits: BitString)
    requires |bits| >= 14
    ensures Value(bits[..5]) < 32 && Value(bits[5..10]) < 32 && Value(bits[10..14]) < 16
  {
    assert Pow2(5) == 32 && Pow2(4) == 16;
    ValueBound(bits[..5]);
    ValueBound(bits[5..10]);
    ValueBound(bits[10..14]);
  }

  /** Reference reading of a dynamic header: the two codes. Error 64 if there is no end code. */
  ghost function ReadHeader(bits: BitString): (r: Result<(CodeTable, CodeTable, BitString)>)
    ensures r.Ok? ==>
      |r.value.0| == NUM_DEFLATE_CODE_SYMBOLS && |r.value.1| == NUM_DISTANCE_SYMBOLS && |r.value.2| <= |bits|
  {
    match ReadTables(bits)
    case Err(e) => Err(e)
    case Ok((ll, d, rest)) =>
      if ll[256] == 0 then Err(64) else
      match ReadTree(ll)
      case Err(e) => Err(e)
      case Ok(codeLl) =>
        match ReadTree(d)
        case Err(e) => Err(e)
        case Ok(codeD) => Ok((codeLl, codeD, rest))
  }

  /** The order of section 3.2.7: the repeat codes and zero, then from length 8 outwards. */
  lemma ClclOrderIs(i: nat)
    requires i < 15
    ensures |CLCL_ORDER| == 19 && CLCL_ORDER[..4] == [16, 17, 18, 0]
    ensures CLCL_ORDER[i + 4] == if i % 2 == 0 then 8 + i / 2 else 7 - i / 2
  {
  }

  lemma ClclOrderInverse(i: nat)
    requires i < 19
    ensures CLCL_ORDER[i] < 19 && CLCL_PLACE[i] < 19
    ensures CLCL_PLACE[CLCL_ORDER[i]] == i && CLCL_ORDER[CLCL_PLACE[i]] == i
  {
  }

  lemma {:induction false} ClclBitsAt(cl: seq<nat>, n: nat, i: nat)
    requires |cl| == 19 && i < n <= 19
    ensures CLCL_ORDER[i] < 19
    ensures ClclBits(cl, n)[3 * i..3 * i + 3] == LowBits(cl[CLCL_ORDER[i]], 3)
  {
    ClclOrderInverse(i);
    if i < n - 1 {
      ClclBitsAt(cl, n - 1, i);
      assert ClclBits(cl, n)[3 * i..3 * i + 3] == ClclBits(cl, n - 1)[3 * i..3 * i + 3];
    }
  }

  lemma ReadClclBack(cl: seq<nat>, n: nat, rest: BitString)
    requires |cl| == 19 && n <= 19 && LengthsWithin(cl, 7)
    requires forall k :: 0 <= k < 19 && CLCL_PLACE[k] >= n ==> cl[k] == 0
    ensures ReadClcl(ClclBits(cl, n) + rest, n) == cl
  {
    hide LowBits, ClclBits;
    var bits := ClclBits(cl, n) + rest;
    forall k | 0 <= k < 19 ensures ReadClcl(bits, n)[k] == cl[k] {
      ClclOrderInverse(k);
      var i := CLCL_PLACE[k];
      if i < n {
        ClclBitsAt(cl, n, i);
        assert bits[3 * i..3 * i + 3] == ClclBits(cl, n)[3 * i..3 * i + 3];
        assert Pow2(3) == 8;
        ValueOfLowBits(cl[k], 3);
      }
    }
  }

  /** The counts at the start of a header, and what follows them. */
  lemma HeaderFields(h: Header, rest: BitString)
    requires WritableHeader(h)
    ensures
      var bits := HeaderBits(h) + rest;
      && |bits| >= 14 && Value(bits[..5]) + 257 == |h.ll| && Value(bits[5..10]) + 1 == |h.d| && Value(bits[10..14]) + 4 == h.hclen
      && bits[14..] == ClclBits(h.cl, h.hclen) + (RunsBits(Codes(h.cl), h.runs) + rest)
  {
    hide LowBits, ClclBits, RunsBits, CompleteLengths, Codes, RunsHaveCodes, Value, Writable, ValidRuns, ExpandRuns;
    SplitHeader(LowBits(|h.ll| - 257, 5), LowBits(|h.d| - 1, 5), LowBits(h.hclen - 4, 4),
                ClclBits(h.cl, h.hclen), RunsBits(Codes(h.cl), h.runs), rest);
    assert Pow2(5) == 32 && Pow2(4) == 16;
    ValueOfLowBits(|h.ll| - 257, 5);
    ValueOfLowBits(|h.d| - 1, 5);
    ValueOfLowBits(h.hclen - 4, 4);
  }

  lemma ReadTablesAs(bits: BitString, hlit: nat, hdist: nat, hclen: nat, code: CodeTable, lengths: seq<nat>, rest: BitString)
    requires 3 * hclen <= |bits| && hlit <= NUM_DEFLATE_CODE_SYMBOLS && hdist <= NUM_DISTANCE_SYMBOLS && |code| == 19
    requires ReadTree(ReadClcl(bits, hclen)) == Ok(code)
    requires ReadLengths(code, bits[3 * hclen..], [], hlit + hdist) == Ok((lengths, rest))
    ensures |lengths| == hlit + hdist
    ensures ReadTablesOf(bits, hlit, hdist, hclen)
         == Ok((PadTo(lengths[..hlit], NUM_DEFLATE_CODE_SYMBOLS), PadTo(lengths[hlit..], NUM_DISTANCE_SYMBOLS), rest))
  {
    hide ReadTree, ReadClcl, ReadLengths, PadTo;
  }

  lemma ReadTablesOfBack(h: Header, rest: BitString)
    requires WritableHeader(h) && |h.ll| <= NUM_DEFLATE_CODE_SYMBOLS && |h.d| <= NUM_DISTANCE_SYMBOLS
    ensures ReadTablesOf(ClclBits(h.cl, h.hclen) + (RunsBits(Codes(h.cl), h.runs) + rest), |h.ll|, |h.d|, h.hclen)
         == Ok((PadTo(h.ll, NUM_DEFLATE_CODE_SYMBOLS), PadTo(h.d, NUM_DISTANCE_SYMBOLS), rest))
  {
    hide Readable, LowBits, ReadClcl, ReadLengths, ReadTree, ReadTablesOf, ClclBits, RunsBits, CompleteLengths, Codes, RunsHaveCodes, PadTo;
    var runs := RunsBits(Codes(h.cl), h.runs);
    var tail := ClclBits(h.cl, h.hclen) + (runs + rest);
    CompleteWithin(h.cl, 7);
    ReadClclBack(h.cl, h.hclen, runs + rest);
    assert tail[3 * h.hclen..] == runs + rest;
    CompleteReadable(h.cl, 7);
    ReadCompleteTree(h.cl, 7);
    ReadLengthsBack(Codes(h.cl), h.runs, rest, [], |h.ll| + |h.d|);
    ReadTablesAs(tail, |h.ll|, |h.d|, h.hclen, Codes(h.cl), h.ll + h.d, rest);
    assert (h.ll + h.d)[..|h.ll|] == h.ll && (h.ll + h.d)[|h.ll|..] == h.d;
  }

  lemma ReadTablesBack(h: Header, rest: BitString)
    requires WritableHeader(h)
    ensures ReadTables(HeaderBits(h) + rest)
         == Ok((PadTo(h.ll, NUM_DEFLATE_CODE_SYMBOLS), PadTo(h.d, NUM_DISTANCE_SYMBOLS), rest))
  {
    hide LowBits, ReadTablesOf, HeaderBits, ClclBits, RunsBits, CompleteLengths, Codes, RunsHaveCodes, Value, PadTo;
    HeaderFields(h, rest);
    ReadTablesOfBack(h, rest);
  }

  lemma ReadHeaderBack(h: Header, rest: BitString)
    requires ValidHeader(h)
    ensures ReadHeader(HeaderBits(h) + rest) == Ok((HeaderLitLen(h), HeaderDistance(h), rest))
  {
    hide HeaderBits, ReadTables, ReadTree, CompleteLengths, Codes;
    ReadTablesBack(h, rest);
    HeaderIsComplete(h);
    ReadCompleteTree(PadTo(h.ll, NUM_DEFLATE_CODE_SYMBOLS), 15);
    ReadCompleteTree(PadTo(h.d, NUM_DISTANCE_SYMBOLS), 15);
  }

  lemma CompleteWithin(lengths: seq<nat>, maxLen: nat)
    requires CompleteLengths(lengths, maxLen)
    ensures LengthsWithin(lengths, maxLen)
  {
  }

  lemma SplitHeader(a: BitString, b: BitString, c: BitString, e: BitString, f: BitString, rest: BitString)
    requires |a| == 5 && |b| == 5 && |c| == 4
    ensures
      var bits := a + b + c + e + f + rest;
      bits[..5] == a && bits[5..10] == b && bits[10..14] == c && bits[14..] == e + (f + rest)
  {
  }

  // ---- The fixed codes ----

  lemma {:induction false} KraftConstant(lengths: seq<nat>, maxLen: nat, l: nat, m: nat, n: nat)
    requires m <= n <= |lengths| && 1 <= l <= maxLen
    requires forall s :: m <= s < n ==> lengths[s] == l
    ensures KraftTo(lengths, maxLen, maxLen, n) == KraftTo(lengths, maxLen, maxLen, m) + (n - m) * Pow2(maxLen - l)
    decreases n
  {
    hide KraftTo, Pow2;
    if m < n {
      KraftConstant(lengths, maxLen, l, m, n - 1);
      KraftLast(lengths, maxLen, n, Pow2(maxLen - l));
      TimesPlusOne(n - 1 - m, Pow2(maxLen - l));
    }
  }

  lemma KraftLast(lengths: seq<nat>, maxLen: nat, n: nat, p: nat)
    requires 0 < n <= |lengths| && 1 <= lengths[n - 1] <= maxLen && p == Pow2(maxLen - lengths[n - 1])
    ensures KraftTo(lengths, maxLen, maxLen, n) == KraftTo(lengths, maxLen, maxLen, n - 1) + p
  {
    hide Pow2;
  }

  lemma FixedCodesComplete()
    ensures CompleteLengths(FixedLitLenLengths(), 15) && CompleteLengths(FixedDistanceLengths(), 15)
  {
    hide KraftTo, Pow2;
    var ll, d := FixedLitLenLengths(), FixedDistanceLengths();
    Pow2Small();
    KraftConstant(ll, 15, 8, 0, 144);
    KraftConstant(ll, 15, 9, 144, 256);
    KraftConstant(ll, 15, 7, 256, 280);
    KraftConstant(ll, 15, 8, 280, 288);
    KraftConstant(d, 15, 5, 0, 32);
    KraftStart(ll, 15);
    KraftStart(d, 15);
  }

  lemma KraftStart(lengths: seq<nat>, maxLen: nat)
    ensures KraftTo(lengths, maxLen, maxLen, 0) == 0
  {
  }

  lemma FixedCodesPresent(tokens: seq<Token>)
    requires Encodable(tokens)
    ensures TokensHaveCodes(Codes(FixedLitLenLengths()), Codes(FixedDistanceLengths()), tokens)
  {
    hide CodeIndex, Codes;
    var ll, d := FixedLitLenLengths(), FixedDistanceLengths();
    assert |Codes(ll)| == 288 && |Codes(d)| == 32;
    assert forall s :: 0 <= s < 288 ==> |Codes(ll)[s]| == ll[s] > 0;
    assert forall s :: 0 <= s < 32 ==> |Codes(d)[s]| == d[s] > 0;
    forall t | t in tokens ensures TokenHasCodes(Codes(ll), Codes(d), t) {
      if t.Match? {
        CodeIndexBound(LENGTHBASE, t.length);
        CodeIndexBound(DISTANCEBASE, t.distance);
      }
    }
  }

  // ---- Blocks ----

  ghost predicate ValidBlock(b: Block, n: nat) {
    match b
    case Stored(data) => 1 <= |data| <= 65535
    case Fixed(tokens) => Encodable(tokens) && ValidTokens(tokens, n)
    case Dynamic(h, tokens) =>
      && ValidHeader(h) && Encodable(tokens) && ValidTokens(tokens, n)
      && TokensHaveCodes(HeaderLitLen(h), HeaderDistance(h), tokens)
  }

  ghost function HeaderLitLen(h: Header): (code: CodeTable)
    requires ValidHeader(h)
    ensures |code| == NUM_DEFLATE_CODE_SYMBOLS
  {
    Codes(PadTo(h.ll, NUM_DEFLATE_CODE_SYMBOLS))
  }

  ghost function HeaderDistance(h: Header): (code: CodeTable)
    requires ValidHeader(h)
    ensures |code| == NUM_DISTANCE_SYMBOLS
  {
    Codes(PadTo(h.d, NUM_DISTANCE_SYMBOLS))
  }

  function Alignment(pos: nat): (n: nat)
    ensures n < 8 && (pos + n) % 8 == 0
  {
    (8 - pos % 8) % 8
  }

  function StoredBits(data: seq<Byte>, pos: nat): BitString
    requires |data| <= 65535
  {
    Copies(false, Alignment(pos)) + (LowBits(|data|, 16) + LowBits(65535 - |data|, 16) + StreamBits(data))
  }

  function CompressedBits(ll: CodeTable, d: CodeTable, tokens: seq<Token>): BitString
    requires |ll| >= 286 && |d| >= 30 && Encodable(tokens)
  {
    TokensBits(ll, d, tokens) + ll[256]
  }

  /** A block at bit position pos: the final flag, two type bits and the body. */
  ghost function BlockBits(b: Block, final: bool, pos: nat): BitString
    requires exists n: nat :: ValidBlock(b, n)
  {
    match b
    case Stored(data) => [final, false, false] + StoredBits(data, pos + 3)
    case Fixed(tokens) =>
      [final, true, false] + CompressedBits(Codes(FixedLitLenLengths()), Codes(FixedDistanceLengths()), tokens)
    case Dynamic(h, tokens) =>
      [final, false, true] + (HeaderBits(h) + CompressedBits(HeaderLitLen(h), HeaderDistance(h), tokens))
  }

  ghost function ApplyBlock(out: seq<Byte>, b: Block): seq<Byte>
    requires ValidBlock(b, |out|)
  {
    match b
    case Stored(data) => out + data
    case Fixed(tokens) => Expand(out, tokens)
    case Dynamic(_, tokens) => Expand(out, tokens)
  }

  ghost predicate ValidBlocks(blocks: seq<Block>, out: seq<Byte>) {
    blocks == [] || (ValidBlock(blocks[0], |out|) && ValidBlocks(blocks[1..], ApplyBlock(out, blocks[0])))
  }

  /** A run of blocks from bit position pos; the last one is marked final if the stream is closed. */
  ghost function BlocksBits(blocks: seq<Block>, closed: bool, pos: nat, out: seq<Byte>): BitString
    requires ValidBlocks(blocks, out)
    decreases |blocks|
  {
    if blocks == [] then []
    else
      var first := BlockBits(blocks[0], closed && |blocks| == 1, pos);
      first + BlocksBits(blocks[1..], closed, pos + |first|, ApplyBlock(out, blocks[0]))
  }

  ghost function ExpandBlocks(out: seq<Byte>, blocks: seq<Block>): seq<Byte>
    requires ValidBlocks(blocks, out)
    decreases |blocks|
  {
    if blocks == [] then out else ExpandBlocks(ApplyBlock(out, blocks[0]), blocks[1..])
  }

  lemma {:induction false} AppendBlock(blocks: seq<Block>, b: Block, closed: bool, pos: nat, out: seq<Byte>)
    requires ValidBlocks(blocks, out) && ValidBlock(b, |ExpandBlocks(out, blocks)|)
    ensures ValidBlocks(blocks + [b], out)
    ensures ExpandBlocks(out, blocks + [b]) == ApplyBlock(ExpandBlocks(out, blocks), b)
    ensures BlocksBits(blocks + [b], closed, pos, out)
         == BlocksBits(blocks, false, pos, out) + BlockBits(b, closed, pos + |BlocksBits(blocks, false, pos, out)|)
    decreases |blocks|
  {
    hide ValidBlock, BlockBits, ApplyBlock;
    if blocks == [] {
      assert blocks + [b] == [b] && [b][1..] == [];
      assert ValidBlocks([], ApplyBlock(out, b));
    } else {
      var first := BlockBits(blocks[0], false, pos);
      AppendBlock(blocks[1..], b, closed, pos + |first|, ApplyBlock(out, blocks[0]));
      assert (blocks + [b])[1..] == blocks[1..] + [b];
    }
  }

  // ---- Reference decoding of streams ----

  function BytesOf(bits: BitString): (data: seq<Byte>)
    ensures |data| == |bits| / 8
  {
    seq(|bits| / 8, i requires 0 <= i < |bits| / 8 => ByteAt(bits, i))
  }

  function ByteAt(bits: BitString, i: nat): Byte
    requires 8 * i + 8 <= |bits|
  {
    var b := bits[8 * i..8 * i + 8];
    ValueBound(b);
    assert Pow2(8) == 256;
    Value(b)
  }

  /** A stored body. As in the source at least one byte must follow the four header bytes. */
  ghost function ReadStored(bits: BitString): (r: Result<(seq<Byte>, BitString)>)
    ensures r.Ok? ==> |r.value.1| <= |bits|
  {
    var rest := bits[|bits| % 8..];
    if |rest| < 40 then Err(52) else
    var len, nlen := Value(rest[..16]), Value(rest[16..32]);
    if len + nlen != 65535 then Err(21)
    else if |rest| < 32 + 8 * len then Err(23)
    else Ok((BytesOf(rest[32..32 + 8 * len]), rest[32 + 8 * len..]))
  }

  ghost function ReadBody(btype: nat, bits: BitString, out: seq<Byte>): (r: Result<(BitString, seq<Byte>)>)
    ensures r.Ok? ==> |r.value.0| <= |bits|
  {
    if btype == 0 then
      match ReadStored(bits)
      case Err(e) => Err(e)
      case Ok((data, rest)) => Ok((rest, out + data))
    else if btype == 1 then
      ReadTokens(Codes(FixedLitLenLengths()), Codes(FixedDistanceLengths()), bits, out)
    else if btype == 2 then
      match ReadHeader(bits)
      case Err(e) => Err(e)
      case Ok((ll, d, rest)) => ReadTokens(ll, d, rest, out)
    else Err(20)
  }

  /** Reference decoding of a deflate stream; bits after its final block are not looked at. */
  ghost function ReadBlocks(bits: BitString, out: seq<Byte>): Result<seq<Byte>>
    decreases |bits|
  {
    if |bits| < 3 then Err(52) else
    match ReadBody(B2N(bits[1]) + 2 * B2N(bits[2]), bits[3..], out)
    case Err(e) => Err(e)
    case Ok((rest, out')) => if bits[0] then Ok(out') else ReadBlocks(rest, out')
  }

  /** A stored block that ends before its first byte is refused. */
  lemma CutShort(bits: BitString)
    requires 3 <= |bits| < 40 && !bits[1] && !bits[2]
    ensures ReadBlocks(bits, []) == Err(52)
  {
    hide ReadHeader, ReadTokens, BytesOf, Value, CLCL_ORDER, CLCL_PLACE, LENGTHBASE, LENGTHEXTRA, DISTANCEBASE, DISTANCEEXTRA;
  }

  /** A little-endian 16-bit number. */
  function Word(data: seq<Byte>, p: nat): (w: nat)
    requires p + 1 < |data|
    ensures w < 65536
  {
    (data[p] as int) + 256 * (data[p + 1] as int)
  }

  /** What reading a stored body means in terms of the bytes of the stream. */
  lemma ReadStoredBytes(data: seq<Byte>, bp: nat)
    requires bp <= 8 * |data|
    ensures
      var p := (bp + 7) / 8;
      ReadStored(StreamBits(data)[bp..]) ==
        if p + 4 >= |data| then Err(52)
        else if Word(data, p) + Word(data, p + 2) != 65535 then Err(21)
        else if p + 4 + Word(data, p) > |data| then Err(23)
        else Ok((data[p + 4..p + 4 + Word(data, p)], StreamBits(data)[8 * (p + 4 + Word(data, p))..]))
  {
    hide StreamBits, BytesOf, Value;
    var s, p := StreamBits(data), (bp + 7) / 8;
    var bits := s[bp..];
    assert bp + |bits| % 8 == 8 * p;
    var rest := bits[|bits| % 8..];
    assert rest == s[8 * p..];
    if p + 4 < |data| { StoredFields(data, p, rest); }
  }

  lemma StoredFields(data: seq<Byte>, p: nat, rest: BitString)
    requires p + 4 < |data| && rest == StreamBits(data)[8 * p..]
    ensures Value(rest[..16]) == Word(data, p) && Value(rest[16..32]) == Word(data, p + 2)
    ensures
      var len := Word(data, p);
      p + 4 + len <= |data| ==>
        BytesOf(rest[32..32 + 8 * len]) == data[p + 4..p + 4 + len] && rest[32 + 8 * len..] == StreamBits(data)[8 * (p + 4 + len)..]
  {
    hide StreamBits, BytesOf, Value;
    var s := StreamBits(data);
    WordValue(data, p);
    WordValue(data, p + 2);
    assert rest[..16] == s[8 * p..8 * p + 16];
    assert rest[16..32] == s[8 * (p + 2)..8 * (p + 2) + 16];
    var len := Word(data, p);
    if p + 4 + len <= |data| {
      BytesOfSlice(data, p + 4, len);
      assert rest[32..32 + 8 * len] == s[8 * (p + 4)..8 * (p + 4 + len)];
      assert rest[32 + 8 * len..] == s[8 * (p + 4 + len)..];
    }
  }

  lemma WordValue(data: seq<Byte>, p: nat)
    requires p + 1 < |data|
    ensures Value(StreamBits(data)[8 * p..8 * p + 16]) == Word(data, p)
  {
    hide StreamBits, Value;
    var s := StreamBits(data);
    var a, b := s[8 * p..8 * p + 8], s[8 * (p + 1)..8 * (p + 1) + 8];
    assert s[8 * p..8 * p + 16] == a + b;
    ValueConcat(a, b);
    ByteOfStream(data, p);
    ByteOfStream(data, p + 1);
    assert Pow2(8) == 256;
  }

  lemma BytesOfSlice(data: seq<Byte>, p: nat, n: nat)
    requires p + n <= |data|
    ensures BytesOf(StreamBits(data)[8 * p..8 * (p + n)]) == data[p..p + n]
  {
    hide StreamBits, Value;
    var s := StreamBits(data);
    var part := s[8 * p..8 * (p + n)];
    forall i | 0 <= i < n ensures ByteAt(part, i) == data[p + i] {
      ByteOfStream(data, p + i);
      ByteOfPart(s, p, n, i);
    }
  }

  lemma ByteOfPart(s: BitString, p: nat, n: nat, i: nat)
    requires 8 * (p + n) <= |s| && i < n
    ensures ByteAt(s[8 * p..8 * (p + n)], i) == ByteAt(s, p + i)
  {
    hide Value;
    var part := s[8 * p..8 * (p + n)];
    var a, b := part[8 * i..8 * i + 8], s[8 * (p + i)..8 * (p + i) + 8];
    forall k | 0 <= k < 8 ensures a[k] == b[k] { assert a[k] == part[8 * i + k]; }
    assert a == b;
  }

  // ---- Round trip ----

  lemma BytesOfStream(data: seq<Byte>)
    ensures BytesOf(StreamBits(data)) == data
  {
    hide Value, LowBits;
    var s := StreamBits(data);
    forall i | 0 <= i < |data| ensures ByteAt(s, i) == data[i] {
      ByteOfStream(data, i);
    }
  }

  lemma ByteOfStream(data: seq<Byte>, i: nat)
    requires i < |data|
    ensures StreamBits(data)[8 * i..8 * i + 8] == LowBits(data[i], 8)
    ensures ByteAt(StreamBits(data), i) == data[i]
  {
    var b := StreamBits(data)[8 * i..8 * i + 8];
    forall k | 0 <= k < 8 ensures b[k] == LowBits(data[i], 8)[k] {
      assert (8 * i + k) / 8 == i && (8 * i + k) % 8 == k;
      assert b[k] == Bit(data[i], k);
      LowBitsAt(data[i], 8, k);
    }
    assert Pow2(8) == 256;
    ValueOfLowBits(data[i], 8);
  }

  lemma ReadStoredBack(data: seq<Byte>, pos: nat, rest: BitString)
    requires 1 <= |data| <= 65535 && (pos + |StoredBits(data, pos)| + |rest|) % 8 == 0
    ensures ReadStored(StoredBits(data, pos) + rest) == Ok((data, rest))
  {
    hide LowBits, Value, StreamBits, BytesOf;
    var n := |data|;
    var bits := StoredBits(data, pos) + rest;
    var body := LowBits(n, 16) + LowBits(65535 - n, 16) + StreamBits(data);
    assert bits == Copies(false, Alignment(pos)) + (body + rest);
    SkipAlignment(pos, |body + rest|);
    assert bits[|bits| % 8..] == body + rest;
    SplitStored(LowBits(n, 16), LowBits(65535 - n, 16), StreamBits(data), rest);
    Pow2Small();
    assert Pow2(16) == 2 * Pow2(15);
    ValueOfLowBits(n, 16);
    ValueOfLowBits(65535 - n, 16);
    BytesOfStream(data);
  }

  lemma SkipAlignment(pos: nat, n: nat)
    requires (pos + Alignment(pos) + n) % 8 == 0
    ensures (Alignment(pos) + n) % 8 == Alignment(pos)
  {
  }

  lemma SplitStored(a: BitString, b: BitString, c: BitString, rest: BitString)
    requires |a| == 16 && |b| == 16
    ensures
      var bits := a + b + c + rest;
      bits[..16] == a && bits[16..32] == b && bits[32..32 + |c|] == c && bits[32 + |c|..] == rest
  {
  }

  lemma ReadCompressedBack(ll: seq<nat>, d: seq<nat>, tokens: seq<Token>, rest: BitString, out: seq<Byte>)
    requires |ll| == NUM_DEFLATE_CODE_SYMBOLS && |d| == NUM_DISTANCE_SYMBOLS
    requires CompleteLengths(ll, 15) && CompleteLengths(d, 15) && ll[256] != 0
    requires Encodable(tokens) && TokensHaveCodes(Codes(ll), Codes(d), tokens) && ValidTokens(tokens, |out|)
    ensures ReadTokens(Codes(ll), Codes(d), CompressedBits(Codes(ll), Codes(d), tokens) + rest, out)
         == Ok((rest, Expand(out, tokens)))
  {
    hide CompleteLengths, ReadTokens, TokensBits, TokensHaveCodes, Readable, Expand, Codes;
    CompleteReadable(ll, 15);
    CompleteReadable(d, 15);
    var cll, cd := Codes(ll), Codes(d);
    assert |cll[256]| == ll[256];
    ReadTokensBack(cll, cd, tokens, rest, out);
    assert CompressedBits(cll, cd, tokens) + rest == TokensBits(cll, cd, tokens) + (cll[256] + rest);
  }

  function BlockType(b: Block): nat { if b.Stored? then 0 else if b.Fixed? then 1 else 2 }

  /** The block is read back, behind its three bits. */
  ghost predicate ReadsBack(b: Block, final: bool, pos: nat, rest: BitString, out: seq<Byte>)
    requires ValidBlock(b, |out|)
  {
    var bits := BlockBits(b, final, pos) + rest;
    && |bits| >= 3 + |rest| && bits[0] == final && B2N(bits[1]) + 2 * B2N(bits[2]) == BlockType(b)
    && ReadBody(BlockType(b), bits[3..], out) == Ok((rest, ApplyBlock(out, b)))
  }

  lemma ReadBlockBack(b: Block, final: bool, pos: nat, rest: BitString, out: seq<Byte>)
    requires ValidBlock(b, |out|) && (pos + |BlockBits(b, final, pos)| + |rest|) % 8 == 0
    ensures ReadsBack(b, final, pos, rest, out)
  {
    hide ValidBlock, BlockBits, ReadsBack;
    match b
    case Stored(data) => ReadStoredBlockBack(data, final, pos, rest, out);
    case Fixed(tokens) => ReadFixedBlockBack(tokens, final, pos, rest, out);
    case Dynamic(h, tokens) => ReadDynamicBlockBack(h, tokens, final, pos, rest, out);
  }

  lemma ReadStoredBlockBack(data: seq<Byte>, final: bool, pos: nat, rest: BitString, out: seq<Byte>)
    requires ValidBlock(Stored(data), |out|) && (pos + |BlockBits(Stored(data), final, pos)| + |rest|) % 8 == 0
    ensures ReadsBack(Stored(data), final, pos, rest, out)
  {
    hide ReadStored, StoredBits;
    assert (BlockBits(Stored(data), final, pos) + rest)[3..] == StoredBits(data, pos + 3) + rest;
    ReadStoredBack(data, pos + 3, rest);
  }

  lemma ReadFixedBlockBack(tokens: seq<Token>, final: bool, pos: nat, rest: BitString, out: seq<Byte>)
    requires ValidBlock(Fixed(tokens), |out|)
    ensures ReadsBack(Fixed(tokens), final, pos, rest, out)
  {
    hide ReadTokens, CompressedBits, Codes, CompleteLengths, Expand, TokensHaveCodes, FixedLitLenLengths, FixedDistanceLengths, ValidTokens;
    var ll, d := FixedLitLenLengths(), FixedDistanceLengths();
    assert (BlockBits(Fixed(tokens), final, pos) + rest)[3..] == CompressedBits(Codes(ll), Codes(d), tokens) + rest;
    FixedCodesComplete();
    FixedCodesPresent(tokens);
    FixedEndPresent();
    ReadCompressedBack(ll, d, tokens, rest, out);
  }

  lemma ReadDynamicBlockBack(h: Header, tokens: seq<Token>, final: bool, pos: nat, rest: BitString, out: seq<Byte>)
    requires ValidBlock(Dynamic(h, tokens), |out|)
    ensures ReadsBack(Dynamic(h, tokens), final, pos, rest, out)
  {
    hide ReadTokens, ReadHeader, CompressedBits, HeaderBits, Codes, CompleteLengths, Expand, TokensHaveCodes, ValidHeader, ValidTokens,
         PadTo, WritableHeader, BlockBits;
    ValidIsWritable(h);
    HeaderIsComplete(h);
    var ll, d := PadTo(h.ll, NUM_DEFLATE_CODE_SYMBOLS), PadTo(h.d, NUM_DISTANCE_SYMBOLS);
    var body := CompressedBits(Codes(ll), Codes(d), tokens) + rest;
    DynamicBits(h, tokens, final, pos, rest, out);
    ReadHeaderBack(h, body);
    ReadCompressedBack(ll, d, tokens, rest, out);
  }

  lemma DynamicBits(h: Header, tokens: seq<Token>, final: bool, pos: nat, rest: BitString, out: seq<Byte>)
    requires ValidBlock(Dynamic(h, tokens), |out|)
    ensures
      var bits := BlockBits(Dynamic(h, tokens), final, pos) + rest;
      && WritableHeader(h) && |bits| >= 3 + |rest| && bits[0] == final && !bits[1] && bits[2]
      && bits[3..] == HeaderBits(h) + (CompressedBits(HeaderLitLen(h), HeaderDistance(h), tokens) + rest)
  {
    hide CompressedBits, HeaderBits, Codes, TokensHaveCodes, ValidHeader, ValidTokens, HeaderLitLen, HeaderDistance, WritableHeader;
    ValidIsWritable(h);
  }

  lemma HeaderIsComplete(h: Header)
    requires ValidHeader(h)
    ensures |h.ll| <= NUM_DEFLATE_CODE_SYMBOLS && |h.d| <= NUM_DISTANCE_SYMBOLS
    ensures CompleteLengths(PadTo(h.ll, NUM_DEFLATE_CODE_SYMBOLS), 15) && PadTo(h.ll, NUM_DEFLATE_CODE_SYMBOLS)[256] != 0
    ensures CompleteLengths(PadTo(h.d, NUM_DISTANCE_SYMBOLS), 15)
  {
    hide KraftTo;
    CompleteExtend(h.ll, Copies(0, NUM_DEFLATE_CODE_SYMBOLS - |h.ll|), 15);
    CompleteExtend(h.d, Copies(0, NUM_DISTANCE_SYMBOLS - |h.d|), 15);
  }

  lemma FixedEndPresent()
    ensures FixedLitLenLengths()[256] == 7
  {
  }

  /** The reference decoder inverts the printed form of every closed sequence of blocks. */
  lemma {:induction false} ReadBlocksBack(blocks: seq<Block>, pos: nat, rest: BitString, out: seq<Byte>)
    requires blocks != [] && ValidBlocks(blocks, out)
    requires (pos + |BlocksBits(blocks, true, pos, out)| + |rest|) % 8 == 0
    ensures ReadBlocks(BlocksBits(blocks, true, pos, out) + rest, out) == Ok(ExpandBlocks(out, blocks))
    decreases |blocks|
  {
    hide ValidBlock, BlockBits, ApplyBlock, ReadBody;
    var out' := ApplyBlock(out, blocks[0]);
    var first := BlockBits(blocks[0], |blocks| == 1, pos);
    var tail := BlocksBits(blocks[1..], true, pos + |first|, out') + rest;
    assert BlocksBits(blocks, true, pos, out) + rest == first + tail;
    ReadBlockBack(blocks[0], |blocks| == 1, pos, tail, out);
    if |blocks| == 1 {
      assert blocks[1..] == [];
    } else {
      ReadBlocksBack(blocks[1..], pos + |first|, rest, out');
    }
  }
}
