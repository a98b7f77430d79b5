/**
 * Streams of RFC 1951 and RFC 1950 given byte by byte, with what they stand for: a stored, a fixed and a dynamic block,
 * and the fixed codes of section 3.2.6 (lodepng.c:479-501, 887-920, 1110-1258, 2102-2145).
 */
module StandardStreams {
  import opened Bits
  import opened BitStream
  import opened PrefixCode
  import opened Canonical
  import opened CodeTrees
  import opened Tokens
  import opened CodeLengths
  import opened Format
  import opened Blocks
  import opened Inflate
  import opened Streams
  import opened Zlib

  // ---- Cutting bits into fields ----

  /** A number with two fields. */
  lemma Cut(v: nat, n: nat, k: nat, p: nat, lo: nat, hi: nat)
    requires k <= n && p == Pow2(k) && v == lo + hi * p && lo < p
    ensures LowBits(v, n) == LowBits(lo, k) + LowBits(hi, n - k)
  {
    LowBitsSplit(lo, hi, k, n - k);
  }

  /** The bytes from k on are the n low bits of a number, the first byte lowest. */
  ghost predicate BytesAre(data: seq<Byte>, k: nat, v: nat, n: nat) {
    k <= |data| && StreamBits(data[k..]) == LowBits(v, n)
  }

  lemma NextByte(data: seq<Byte>, k: nat, hi: nat, m: nat, all: nat)
    requires k < |data| && BytesAre(data, k + 1, hi, m) && all == data[k] + hi * 256
    ensures BytesAre(data, k, all, m + 8)
  {
    hide LowBits, StreamBits;
    assert data[k..] == [data[k]] + data[k + 1..];
    FirstByte(data[k], data[k + 1..]);
    Pow2Small();
    Cut(all, m + 8, 8, 256, data[k], hi);
  }

  lemma NoMoreBytes(data: seq<Byte>)
    ensures BytesAre(data, |data|, 0, 0)
  {
  }

  lemma AllBytes(data: seq<Byte>, v: nat, n: nat)
    requires BytesAre(data, 0, v, n)
    ensures StreamBits(data) == LowBits(v, n)
  {
    hide LowBits, StreamBits;
    assert data[0..] == data;
  }

  lemma OneMoreBit(lo: nat, bit: nat, n: nat)
    requires lo < Pow2(n) && bit <= 1
    ensures LowBits(lo + if bit == 1 then Pow2(n) else 0, n + 1) == LowBits(lo, n) + [bit == 1]
  {
    hide Pow2;
    LowBitsSplit(lo, bit, n, 1);
    assert LowBits(bit, 1) == [bit == 1];
  }

  lemma FirstByte(b: Byte, rest: seq<Byte>)
    ensures StreamBits([b] + rest) == LowBits(b, 8) + StreamBits(rest)
  {
    hide LowBits;
    StreamBitsConcat([b], rest);
    StreamBitsPush([], b);
    assert [] + [b] == [b] && StreamBits([]) == [];
  }

  /** The n low bits of v in reverse. */
  function Reversed(v: nat, n: nat): (r: nat)
    ensures r < Pow2(n)
  {
    if n == 0 then 0 else Reversed(v / 2, n - 1) + if v % 2 == 1 then Pow2(n - 1) else 0
  }

  /** A code is written most significant bit first. */
  lemma {:induction false} CodeIsReversed(v: nat, n: nat)
    ensures CodeBits(v, n) == LowBits(Reversed(v, n), n)
  {
    if n > 0 {
      CodeIsReversed(v / 2, n - 1);
      OneMoreBit(Reversed(v / 2, n - 1), v % 2, n - 1);
    }
  }

  // ---- The fixed codes ----

  lemma {:induction false} CountConstant(lengths: seq<nat>, l: nat, m: nat, n: nat, value: nat)
    requires m <= n <= |lengths| && forall s :: m <= s < n ==> lengths[s] == value
    ensures CountUpTo(lengths, l, n) == CountUpTo(lengths, l, m) + if value == l then n - m else 0
    decreases n
  {
    if m < n { CountConstant(lengths, l, m, n - 1, value); }
  }

  lemma FixedCount(l: nat, s: nat)
    requires s <= 288
    ensures
      var n8 := if s <= 144 then s else if s <= 280 then 144 else s - 136;
      var n9 := if s <= 144 then 0 else if s <= 256 then s - 144 else 112;
      var n7 := if s <= 256 then 0 else if s <= 280 then s - 256 else 24;
      CountUpTo(FixedLitLenLengths(), l, s) == if l == 8 then n8 else if l == 9 then n9 else if l == 7 then n7 else 0
  {
    hide CountUpTo;
    var ll := FixedLitLenLengths();
    NothingCounted(ll, l);
    CountConstant(ll, l, 0, if s <= 144 then s else 144, 8);
    if s > 144 { CountConstant(ll, l, 144, if s <= 256 then s else 256, 9); }
    if s > 256 { CountConstant(ll, l, 256, if s <= 280 then s else 280, 7); }
    if s > 280 { CountConstant(ll, l, 280, s, 8); }
  }

  lemma NothingCounted(lengths: seq<nat>, l: nat)
    ensures CountUpTo(lengths, l, 0) == 0
  {
  }

  lemma FixedFirst()
    ensures var ll := FixedLitLenLengths(); FirstCode(ll, 7) == 0 && FirstCode(ll, 8) == 48 && FirstCode(ll, 9) == 400
  {
    hide CountUpTo;
    var ll := FixedLitLenLengths();
    forall l ensures CountUpTo(ll, l, 288) == if l == 8 then 152 else if l == 9 then 112 else if l == 7 then 24 else 0 { FixedCount(l, 288); }
    NoShortCodes(ll, 7);
  }

  lemma {:induction false} NoShortCodes(lengths: seq<nat>, l: nat)
    requires forall k: nat :: k < l ==> CountUpTo(lengths, k, |lengths|) == 0
    ensures FirstCode(lengths, l) == 0
  {
    if l > 0 { NoShortCodes(lengths, l - 1); }
  }

  /** The fixed codes are those of the table in section 3.2.6: 8 bits from 00110000, 9 from 110010000, 7 from 0000000, 8 from 11000000. */
  lemma FixedCodes(s: nat)
    requires s < 288
    ensures Codes(FixedLitLenLengths())[s] ==
      if s <= 143 then CodeBits(48 + s, 8) else if s <= 255 then CodeBits(400 + (s - 144), 9)
      else if s <= 279 then CodeBits(s - 256, 7) else CodeBits(192 + (s - 280), 8)
  {
    hide CountUpTo, FirstCode, Codes;
    var ll := FixedLitLenLengths();
    CodeAt(ll, s);
    FixedFirst();
    FixedCount(ll[s], s);
  }

  /** Distance symbols take five bits. */
  lemma FixedDistanceCodes(s: nat)
    requires s < 32
    ensures Codes(FixedDistanceLengths())[s] == CodeBits(s, 5)
  {
    hide CountUpTo, FirstCode, Codes;
    var d := FixedDistanceLengths();
    CodeAt(d, s);
    forall k: nat | k < 5 ensures CountUpTo(d, k, 32) == 0 { NothingCounted(d, k); CountConstant(d, k, 0, 32, 5); }
    NoShortCodes(d, 5);
    NothingCounted(d, 5);
    CountConstant(d, 5, 0, s, 5);
  }

  // ---- A fixed block ----

  const FIXED_STREAM: seq<Byte> := [0x4b, 0x4c, 0x02, 0x42, 0x00]

  const FIXED_TOKENS: seq<Token> := [Literal(97), Literal(98), Match(3, 2)]

  /** Final flag and block type, two literals, a length, a distance, the end code, and two bits to fill the last byte. */
  lemma FixedFields()
    ensures LowBits(0x42024c4b, 40) ==
      LowBits(3, 3) + (LowBits(0x89, 8) + (LowBits(0x49, 8) + (LowBits(0x40, 7) + (LowBits(0x10, 5) + (LowBits(0, 7) + LowBits(0, 2))))))
  {
    hide LowBits, Pow2;
    Pow2Small();
    Cut(0x42024c4b, 40, 3, 8, 3, 0x8404989);
    Cut(0x8404989, 37, 8, 256, 0x89, 0x84049);
    Cut(0x84049, 29, 8, 256, 0x49, 0x840);
    Cut(0x840, 21, 7, 128, 0x40, 0x10);
    Cut(0x10, 14, 5, 32, 0x10, 0);
    Cut(0, 9, 7, 128, 0, 0);
  }

  lemma FixedBytes()
    ensures StreamBits(FIXED_STREAM) == LowBits(0x42024c4b, 40)
  {
    hide LowBits, StreamBits, BytesAre;
    var data := FIXED_STREAM;
    NoMoreBytes(data);
    NextByte(data, 4, 0, 0, 0);
    NextByte(data, 3, 0, 8, 0x42);
    NextByte(data, 2, 0x42, 16, 0x4202);
    NextByte(data, 1, 0x4202, 24, 0x42024c);
    NextByte(data, 0, 0x42024c, 32, 0x42024c4b);
    AllBytes(data, 0x42024c4b, 40);
  }

  /** The codes 10010001, 10010010, 0000001, 0000000 and 00001. */
  lemma FixedSymbols(ll: CodeTable, d: CodeTable)
    requires ll == Codes(FixedLitLenLengths()) && d == Codes(FixedDistanceLengths())
    ensures |ll| == 288 && |d| == 32
    ensures
      && ll[97] == LowBits(0x89, 8) && ll[98] == LowBits(0x49, 8) && ll[257] == LowBits(0x40, 7)
      && ll[256] == LowBits(0, 7) && d[1] == LowBits(0x10, 5)
  {
    hide Codes, CodeBits, LowBits, Reversed;
    FixedCodes(97);
    FixedCodes(98);
    FixedCodes(257);
    FixedCodes(256);
    FixedDistanceCodes(1);
    CodeIsReversed(145, 8);
    CodeIsReversed(146, 8);
    CodeIsReversed(1, 7);
    CodeIsReversed(0, 7);
    CodeIsReversed(1, 5);
    FixedReversed();
  }

  lemma FixedReversed()
    ensures Reversed(145, 8) == 0x89 && Reversed(146, 8) == 0x49 && Reversed(1, 7) == 0x40 && Reversed(0, 7) == 0 && Reversed(1, 5) == 0x10
  {
    hide Pow2;
    Pow2Small();
    OneValue();
  }

  /** One token after the other. */
  lemma TokenFirst(ll: CodeTable, d: CodeTable, tokens: seq<Token>, t: Token, rest: seq<Token>)
    requires |ll| >= 286 && |d| >= 30 && tokens == [t] + rest && Encodable([t]) && Encodable(rest)
    ensures Encodable(tokens) && TokensBits(ll, d, tokens) == TokenBits(ll, d, t) + TokensBits(ll, d, rest)
  {
    hide TokenBits;
    assert tokens[1..] == rest && tokens[0] == t;
    assert t in [t];
  }

  lemma LiteralBits(ll: CodeTable, d: CodeTable, b: Byte)
    requires |ll| >= 286 && |d| >= 30
    ensures Encodable([Literal(b)]) && TokenBits(ll, d, Literal(b)) == ll[b]
  {
  }

  lemma MatchIs(ll: CodeTable, d: CodeTable, length: nat, distance: nat, l: nat, m: nat)
    requires |ll| >= 286 && |d| >= 30 && 3 <= length <= 258 && 1 <= distance <= 32768
    requires l == CodeIndex(LENGTHBASE, length) && m == CodeIndex(DISTANCEBASE, distance)
    ensures Encodable([Match(length, distance)]) && l < 29 && m < 30 && LENGTHBASE[l] <= length && DISTANCEBASE[m] <= distance
    ensures TokenBits(ll, d, Match(length, distance)) ==
      ll[257 + l] + LowBits(length - LENGTHBASE[l], LENGTHEXTRA[l]) + (d[m] + LowBits(distance - DISTANCEBASE[m], DISTANCEEXTRA[m]))
  {
    hide CodeIndex, LowBits, LENGTHBASE, LENGTHEXTRA, DISTANCEBASE, DISTANCEEXTRA;
    TableSizes();
    assert Match(length, distance) in [Match(length, distance)];
  }

  lemma SymbolsOf(length: nat, distance: nat, l: nat, m: nat)
    requires l < 29 && m < 30 && |LENGTHBASE| == 29 && |DISTANCEBASE| == 30
    requires LENGTHBASE[l] <= length && (l + 1 < 29 ==> length < LENGTHBASE[l + 1])
    requires DISTANCEBASE[m] <= distance && (m + 1 < 30 ==> distance < DISTANCEBASE[m + 1])
    ensures length >= 3 && distance >= 1 && l == CodeIndex(LENGTHBASE, length) && m == CodeIndex(DISTANCEBASE, distance)
  {
    hide CodeIndex, LENGTHBASE, DISTANCEBASE;
    TablesRise();
    RisingFrom(LENGTHBASE, 0, l);
    RisingFrom(DISTANCEBASE, 0, m);
    CodeIndexUnique(LENGTHBASE, length, l);
    CodeIndexUnique(DISTANCEBASE, distance, m);
  }

  lemma ThreeTwo(ll: CodeTable, d: CodeTable)
    requires |ll| >= 286 && |d| >= 30
    ensures Encodable([Match(3, 2)]) && TokenBits(ll, d, Match(3, 2)) == ll[257] + d[1]
  {
    hide CodeIndex, LowBits, TokenBits;
    SymbolsOf(3, 2, 0, 1);
    MatchIs(ll, d, 3, 2, 0, 1);
    NoExtra();
  }

  lemma NoExtra()
    ensures LowBits(0, 0) == []
  {
  }

  lemma NoTokens(ll: CodeTable, d: CodeTable)
    requires |ll| >= 286 && |d| >= 30
    ensures Encodable([]) && TokensBits(ll, d, []) == []
  {
  }

  lemma FixedTokenBits(ll: CodeTable, d: CodeTable)
    requires |ll| >= 286 && |d| >= 30
    ensures Encodable(FIXED_TOKENS) && TokensBits(ll, d, FIXED_TOKENS) + ll[256] == ll[97] + (ll[98] + (ll[257] + (d[1] + ll[256])))
  {
    hide TokenBits, TokensBits, Encodable;
    NoTokens(ll, d);
    ThreeTwo(ll, d);
    LiteralBits(ll, d, 97);
    LiteralBits(ll, d, 98);
    TokenFirst(ll, d, [Match(3, 2)], Match(3, 2), []);
    TokenFirst(ll, d, [Literal(98), Match(3, 2)], Literal(98), [Match(3, 2)]);
    TokenFirst(ll, d, FIXED_TOKENS, Literal(97), [Literal(98), Match(3, 2)]);
  }

  lemma FixedExpands()
    ensures Encodable(FIXED_TOKENS) && ValidTokens(FIXED_TOKENS, 0) && Expand([], FIXED_TOKENS) == [97, 98, 97, 98, 97]
  {
    var one, two, three := [97], [97, 98], [97, 98, 97, 98, 97];
    assert CopyBack(two, 3, 2) == three by {
      assert two + [two[0]] == [97, 98, 97] && [97, 98, 97] + [98] == [97, 98, 97, 98] && [97, 98, 97, 98] + [97] == three;
      assert CopyBack([97, 98, 97, 98], 1, 2) == three;
      assert CopyBack([97, 98, 97], 2, 2) == three;
    }
    var last, rest := [Match(3, 2)], [Literal(98), Match(3, 2)];
    assert FIXED_TOKENS[1..] == rest && rest[1..] == last && last[1..] == [];
    assert ValidTokens(last, 2) && Expand(two, last) == three;
    assert one + [98] == two && [] + [97] == one;
    assert ValidTokens(rest, 1) && Expand(one, rest) == three;
  }

  /** A stream of a single final block decodes to what the block stands for. */
  lemma OneBlockDecodes(b: Block, bits: BitString, fill: BitString)
    requires ValidBlock(b, 0) && bits == BlockBits(b, true, 0) + fill && |bits| % 8 == 0
    ensures ReadBlocks(bits, []) == Ok(ApplyBlock([], b))
  {
    hide ValidBlock, BlockBits, ApplyBlock, ReadBlocks;
    var blocks := [b];
    assert blocks[1..] == [] && ValidBlocks([], ApplyBlock([], b));
    assert BlocksBits(blocks, true, 0, []) == BlockBits(b, true, 0);
    ReadBlocksBack(blocks, 0, fill, []);
  }

  lemma FixedBlockBits()
    ensures
      ValidBlock(Fixed(FIXED_TOKENS), 0) &&
      StreamBits(FIXED_STREAM) == BlockBits(Fixed(FIXED_TOKENS), true, 0) + LowBits(0, 2)
  {
    hide Codes, LowBits, StreamBits, TokensBits, Expand, ValidTokens, Encodable;
    FixedExpands();
    var ll, d := Codes(FixedLitLenLengths()), Codes(FixedDistanceLengths());
    FixedSymbols(ll, d);
    FixedTokenBits(ll, d);
    FixedBytes();
    FixedFields();
    FixedFlags();
  }

  lemma FixedFlags()
    ensures LowBits(3, 3) == [true, true, false]
  {
  }

  lemma FixedDecodes()
    ensures ReadBlocks(StreamBits(FIXED_STREAM), []) == Ok([97, 98, 97, 98, 97])
  {
    hide BlockBits, StreamBits, LowBits, ReadBlocks, Expand, ValidTokens, Encodable;
    FixedBlockBits();
    FixedExpands();
    OneBlockDecodes(Fixed(FIXED_TOKENS), StreamBits(FIXED_STREAM), LowBits(0, 2));
  }

  /** The five bytes 4b 4c 02 42 00 are "ababa": "a", "b", a match of length 3 and distance 2, the end code. */
  method InflateFixed() returns (error: nat, out: seq<Byte>)
    ensures error == 0 && out == [97, 98, 97, 98, 97]
  {
    hide ReadBlocks, StreamBits;
    FixedDecodes();
    var decoder := new Inflator(FIXED_STREAM);
    error := decoder.InflateStream();
    out := decoder.out;
  }

  // ---- A stored block ----

  const STORED_STREAM: seq<Byte> := [0x01, 0x02, 0x00, 0xfd, 0xff, 97, 98]

  lemma StoredDecodes()
    ensures ReadBlocks(StreamBits(STORED_STREAM), []) == Ok([97, 98])
  {
    hide BlockBits, StreamBits, ReadBlocks;
    StoredBlockBits([], [97, 98], true);
    assert [] + [B2N(true), 2 % 256, 2 / 256, 65533 % 256, 65533 / 256] + [97, 98] == STORED_STREAM;
    var bits := StreamBits(STORED_STREAM);
    assert StreamBits([]) == [] && [] + BlockBits(Stored([97, 98]), true, 0) == bits && bits + [] == bits;
    OneBlockDecodes(Stored([97, 98]), bits, []);
    assert [] + [97, 98] == [97, 98];
  }

  /** Length 2 and its complement, low bytes first, then "ab". */
  method InflateStored() returns (error: nat, out: seq<Byte>)
    ensures error == 0 && out == [97, 98]
  {
    hide ReadBlocks, StreamBits;
    StoredDecodes();
    var decoder := new Inflator(STORED_STREAM);
    error := decoder.InflateStream();
    out := decoder.out;
  }

  // ---- A zlib stream ----

  const ZLIB_STREAM: seq<Byte> := [0x78, 0x9c, 0x4b, 0x04, 0x00, 0x00, 0x62, 0x00, 0x62]

  lemma LetterBits() returns (fill: BitString)
    ensures Encodable([Literal(97)]) && ValidBlock(Fixed([Literal(97)]), 0) && ApplyBlock([], Fixed([Literal(97)])) == [97]
    ensures StreamBits(ZLIB_STREAM[2..]) == BlockBits(Fixed([Literal(97)]), true, 0) + fill
  {
    hide Codes, LowBits, StreamBits, TokensBits;
    var ll, d, t := Codes(FixedLitLenLengths()), Codes(FixedDistanceLengths()), [Literal(97)];
    FixedSymbols(ll, d);
    LiteralBits(ll, d, 97);
    NoTokens(ll, d);
    TokenFirst(ll, d, t, t[0], []);
    assert t[1..] == [] && [] + [97] == [97];
    assert TokensBits(ll, d, t) == ll[97];
    var tail := StreamBits([0x00, 0x62, 0x00, 0x62]);
    fill := LowBits(0, 6) + tail;
    LetterNumber();
    LetterBytes();
    FixedFlags();
    FillBehind([true, true, false], ll[97], ll[256], LowBits(0, 6), tail);
  }

  lemma FillBehind(a: BitString, b: BitString, c: BitString, e: BitString, f: BitString)
    ensures a + (b + (c + e)) + f == a + (b + c) + (e + f)
  {
  }

  lemma LetterNumber()
    ensures LowBits(0x44b, 24) == LowBits(3, 3) + (LowBits(0x89, 8) + (LowBits(0, 7) + LowBits(0, 6)))
  {
    hide LowBits, Pow2;
    Pow2Small();
    Cut(0x44b, 24, 3, 8, 3, 0x89);
    Cut(0x89, 21, 8, 256, 0x89, 0);
    Cut(0, 13, 7, 128, 0, 0);
  }

  lemma LetterBytes()
    ensures StreamBits(ZLIB_STREAM[2..]) == LowBits(0x44b, 24) + StreamBits([0x00, 0x62, 0x00, 0x62])
  {
    hide LowBits, StreamBits, BytesAre;
    var data: seq<Byte> := [0x4b, 0x04, 0x00];
    NoMoreBytes(data);
    NextByte(data, 2, 0, 0, 0);
    NextByte(data, 1, 0, 8, 0x04);
    NextByte(data, 0, 0x04, 16, 0x44b);
    AllBytes(data, 0x44b, 24);
    StreamBitsConcat(data, [0x00, 0x62, 0x00, 0x62]);
    assert ZLIB_STREAM[2..] == data + [0x00, 0x62, 0x00, 0x62];
  }

  /** Header 78 9c, a block with the byte 97, and the checksum 0x00620062, most significant byte first. */
  method DecompressLetter() returns (error: nat, out: seq<Byte>)
    ensures error == 0 && out == [97]
  {
    hide ReadBlocks, StreamBits, ValidBlock, BlockBits, ApplyBlock, AdlerSums;
    ghost var fill := LetterBits();
    OneBlockDecodes(Fixed([Literal(97)]), StreamBits(ZLIB_STREAM[2..]), fill);
    AdlerHalves(1, [97]);
    LetterSums();
    error, out := ZlibDecompress(ZLIB_STREAM, false);
  }

  lemma LetterSums()
    ensures ByteSum([97], 1) == 97 && WeightedSum([97], 1) == 97
  {
    assert ByteSum([97], 0) == 0 && WeightedSum([97], 0) == 0;
  }
}