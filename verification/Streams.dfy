/** Whole deflate streams: what the compressor writes, and that the decompressor gives it back. */
module Streams {
  import opened Bits
  import opened BitStream
  import opened PrefixCode
  import opened Tokens
  import opened Lz77
  import opened Format
  import opened Blocks
  import opened Inflate
  import opened Compressor

  datatype CompressSettings = CompressSettings(btype: nat, use_lz77: bool, lz: Settings)

  /** The blocks written so far stand for a prefix of the data. */
  ghost predicate WrittenSoFar(data: seq<Byte>, n: nat, blocks: seq<Block>, closed: bool, written: BitString) {
    && n <= |data| && ValidBlocks(blocks, []) && ExpandBlocks([], blocks) == data[..n]
    && written == BlocksBits(blocks, closed, 0, [])
    && (closed ==> blocks != [])
  }

  lemma NothingWritten(data: seq<Byte>)
    ensures WrittenSoFar(data, 0, [], false, [])
  {
  }

  lemma OneMoreBlock(data: seq<Byte>, n: nat, m: nat, blocks: seq<Block>, b: Block, final: bool,
                     before: BitString, after: BitString)
    requires WrittenSoFar(data, n, blocks, false, before)
    requires BlockWritten(data, n, m, b, final, before, after)
    ensures WrittenSoFar(data, m, blocks + [b], final, after)
  {
    hide ValidBlock, ApplyBlock, BlockBits;
    AppendBlock(blocks, b, final, 0, []);
  }

  /** The bytes of a finished stream decode to the data, by the reference decoder. */
  lemma StreamDecodes(data: seq<Byte>, blocks: seq<Block>, out: seq<Byte>, bp: nat)
    requires bp <= 8 * |out| && WrittenSoFar(data, |data|, blocks, true, StreamBits(out)[..bp])
    ensures ReadBlocks(StreamBits(out), []) == Ok(data)
  {
    hide StreamBits, ReadBlocks, BlocksBits, ValidBlocks, ExpandBlocks;
    var s := StreamBits(out);
    assert s == s[..bp] + s[bp..];
    assert data[..|data|] == data;
    ReadBlocksBack(blocks, 0, s[bp..], []);
  }

  // ---- Stored blocks ----

  lemma StoredBlockBits(out: seq<Byte>, chunk: seq<Byte>, final: bool)
    requires 1 <= |chunk| <= 65535
    ensures
      var len, nlen := |chunk|, 65535 - |chunk|;
      ValidBlock(Stored(chunk), 0) &&
      StreamBits(out + [B2N(final), len % 256, len / 256, nlen % 256, nlen / 256] + chunk)
      == StreamBits(out) + BlockBits(Stored(chunk), final, 8 * |out|)
  {
    hide LowBits, StreamBits, Copies, Alignment;
    var len, nlen := |chunk|, 65535 - |chunk|;
    var o1 := out + [B2N(final)];
    var o2 := o1 + [len % 256];
    var o3 := o2 + [len / 256];
    var o4 := o3 + [nlen % 256];
    var o5 := o4 + [nlen / 256];
    assert out + [B2N(final), len % 256, len / 256, nlen % 256, nlen / 256] == o5;
    StreamBitsConcat(o5, chunk);
    StreamBitsPush(o4, nlen / 256);
    StreamBitsPush(o3, nlen % 256);
    StreamBitsPush(o2, len / 256);
    StreamBitsPush(o1, len % 256);
    StreamBitsPush(out, B2N(final));
    LowBitsWord(len);
    LowBitsWord(nlen);
    FinalByte(final);
    assert ValidBlock(Stored(chunk), 0);
    FiveBits(|out|);
    JoinFields(StreamBits(out), [final, false, false], Copies(false, 5), LowBits(len % 256, 8), LowBits(len / 256, 8),
               LowBits(nlen % 256, 8), LowBits(nlen / 256, 8), StreamBits(chunk));
  }

  lemma FiveBits(n: nat)
    ensures Alignment(8 * n + 3) == 5
  {
  }

  lemma JoinFields(s: BitString, a: BitString, z: BitString, b: BitString, c: BitString, d: BitString, e: BitString, t: BitString)
    ensures s + (a + z) + b + c + d + e + t == s + (a + (z + ((b + c) + (d + e) + t)))
  {
  }

  lemma FinalByte(final: bool)
    ensures LowBits(B2N(final), 8) == [final, false, false] + Copies(false, 5)
  {
    var n := B2N(final);
    assert n / 2 == 0 && (n % 2 == 1) == final;
    assert LowBits(n, 8) == [final] + LowBits(0, 7);
    LowBitsOfZero(7);
  }

  lemma {:induction false} LowBitsOfZero(n: nat)
    ensures LowBits(0, n) == Copies(false, n)
  {
    if n > 0 { LowBitsOfZero(n - 1); }
  }

  lemma StreamBitsConcat(a: seq<Byte>, b: seq<Byte>)
    ensures StreamBits(a + b) == StreamBits(a) + StreamBits(b)
  {
  }

  /** Stored blocks of up to 65535 bytes; no block at all for empty input. */
  method DeflateNoCompression(data: seq<Byte>) returns (out: seq<Byte>, ghost blocks: seq<Block>)
    ensures data == [] ==> out == []
    ensures data != [] ==> WrittenSoFar(data, |data|, blocks, true, StreamBits(out))
  {
    hide ValidBlock, BlockBits, StreamBits, WrittenSoFar;
    var numdeflateblocks := (|data| + 65534) / 65535;
    var datapos := 0;
    out, blocks := [], [];
    NothingWritten(data);
    assert StreamBits([]) == [];
    for i := 0 to numdeflateblocks
      invariant datapos == if i * 65535 < |data| then i * 65535 else |data|
      invariant (datapos == |data| <==> i == numdeflateblocks) && (i == 0 ==> out == [])
      invariant WrittenSoFar(data, datapos, blocks, 0 < i == numdeflateblocks, StreamBits(out))
    {
      var BFINAL := i == numdeflateblocks - 1;
      var LEN := 65535;
      if |data| - datapos < 65535 { LEN := |data| - datapos; }
      var NLEN := 65535 - LEN;
      ghost var start, before := datapos, out;
      out := out + [B2N(BFINAL)];
      out := out + [LEN % 256] + [LEN / 256] + [NLEN % 256] + [NLEN / 256];
      assert out == before + [B2N(BFINAL), LEN % 256, LEN / 256, NLEN % 256, NLEN / 256];
      ghost var header := out;
      var j := 0;
      while j < 65535 && datapos < |data|
        invariant j <= LEN && datapos == start + j
        invariant out == header + data[start..datapos]
        decreases LEN - j
      {
        out := out + [data[datapos]];
        datapos := datapos + 1;
        j := j + 1;
      }
      ghost var chunk := data[start..datapos];
      StoredBlockBits(before, chunk, BFINAL);
      StoredBlockWritten(data, start, datapos, BFINAL, StreamBits(before));
      OneMoreBlock(data, start, datapos, blocks, Stored(chunk), BFINAL, StreamBits(before), StreamBits(out));
      blocks := blocks + [Stored(chunk)];
    }
  }

  lemma StoredBlockWritten(data: seq<Byte>, n: nat, m: nat, final: bool, before: BitString)
    requires n < m <= |data| && m - n <= 65535
    ensures ValidBlock(Stored(data[n..m]), n)
    ensures BlockWritten(data, n, m, Stored(data[n..m]), final, before,
                         before + BlockBits(Stored(data[n..m]), final, |before|))
  {
    assert ValidBlock(Stored(data[n..m]), n);
    assert data[..n] + data[n..m] == data[..m];
  }

  // ---- The compressor ----

  function BlockSize(settings: CompressSettings, insize: nat): nat {
    if settings.btype == 1 then insize
    else if insize / 8 + 8 < 65535 then 65535 else insize / 8 + 8
  }

  /** The error of the compressor, which depends on the settings and the size of the input only. */
  function DeflateError(settings: CompressSettings, insize: nat): nat {
    if settings.btype > 2 then 61
    else if settings.btype == 0 then 0
    else if settings.use_lz77 then WindowError(settings.lz.windowsize)
    else if settings.btype == 2 && insize > 65535 then OUT_OF_BOUNDS
    else 0
  }

  /** One block of the compressor's loop. */
  method DeflateOneBlock(w: BitWriter, hash: Hash, data: seq<Byte>, start: nat, end: nat, settings: CompressSettings,
                         final: bool, ghost blocks: seq<Block>)
    returns (error: nat, ghost blocks': seq<Block>)
    requires settings.btype == 1 || settings.btype == 2
    requires w.Valid() && start <= end <= |data| && WrittenSoFar(data, start, blocks, false, w.Written())
    requires hash.windowsize == settings.lz.windowsize
    requires settings.use_lz77 ==> hash.Describes(data, start - 1)
    modifies w, hash.Repr()
    ensures error ==
      if settings.use_lz77 then WindowError(settings.lz.windowsize)
      else if settings.btype == 1 || start == 0 || start == end then 0
      else OUT_OF_BOUNDS
    ensures error == 0 ==> w.Valid() && (settings.use_lz77 ==> hash.Describes(data, end - 1))
    ensures error == 0 ==> WrittenSoFar(data, end, blocks', final, w.Written())
  {
    hide BitWriter.Valid, BitWriter.Written, Hash.Describes, Hash.Shape, WrittenSoFar, BlockWritten, IsPowerOfTwo;
    ghost var b;
    ghost var before := w.Written();
    if settings.btype == 1 {
      error, b := DeflateFixed(w, hash, data, start, end, settings.use_lz77, settings.lz, final);
    } else {
      error, b := DeflateDynamic(w, hash, data, start, end, settings.use_lz77, settings.lz, final);
    }
    blocks' := blocks + [b];
    if error == 0 { OneMoreBlock(data, start, end, blocks, b, final, before, w.Written()); }
  }

  /** Compresses the data: the bits written are those of blocks that stand for exactly the data. */
  method DeflateStream(data: seq<Byte>, settings: CompressSettings)
    returns (error: nat, out: seq<Byte>, ghost blocks: seq<Block>, ghost bp: nat)
    requires settings.btype == 1 ==> data != []
    ensures error == DeflateError(settings, |data|)
    ensures settings.btype == 0 && data == [] ==> out == []
    ensures error == 0 && (settings.btype == 0 ==> data != []) ==>
      bp <= 8 * |out| && WrittenSoFar(data, |data|, blocks, true, StreamBits(out)[..bp])
  {
    hide BitWriter.Valid, BitWriter.Written, Hash.Describes, Hash.Shape, WrittenSoFar, IsPowerOfTwo, StreamBits;
    blocks, bp := [], 0;
    if settings.btype > 2 { return 61, [], [], 0; }
    if settings.btype == 0 {
      out, blocks := DeflateNoCompression(data);
      bp := 8 * |out|;
      assert StreamBits(out)[..bp] == StreamBits(out);
      error := 0;
      return;
    }
    var blocksize := BlockSize(settings, |data|);
    var numdeflateblocks := (|data| + blocksize - 1) / blocksize;
    if numdeflateblocks == 0 { numdeflateblocks := 1; }
    BlockCount(|data|, blocksize, numdeflateblocks);
    var hash := new Hash(settings.lz.windowsize);
    var w := new BitWriter();
    error, blocks := DeflateBlocks(w, hash, data, blocksize, numdeflateblocks, settings);
    out := w.data;
    bp := w.bp;
    if error == 0 { WriterBits(w); }
  }

  /** The blocks of a compressed stream. */
  method DeflateBlocks(w: BitWriter, hash: Hash, data: seq<Byte>, blocksize: nat, numdeflateblocks: nat, settings: CompressSettings)
    returns (error: nat, ghost blocks: seq<Block>)
    requires (settings.btype == 1 && data != []) || settings.btype == 2
    requires blocksize == BlockSize(settings, |data|) && numdeflateblocks > 0 && |data| <= numdeflateblocks * blocksize
    requires (|data| > 0 ==> (numdeflateblocks - 1) * blocksize < |data|) && (numdeflateblocks == 1 <==> |data| <= blocksize)
    requires w.Valid() && w.Written() == [] && hash.windowsize == settings.lz.windowsize
    requires settings.use_lz77 ==> hash.Describes(data, -1)
    modifies w, hash.Repr()
    ensures error == DeflateError(settings, |data|)
    ensures error == 0 ==> w.Valid() && WrittenSoFar(data, |data|, blocks, true, w.Written())
  {
    hide BitWriter.Valid, BitWriter.Written, Hash.Describes, Hash.Shape, WrittenSoFar, IsPowerOfTwo;
    NothingWritten(data);
    error, blocks := 0, [];
    var i := 0;
    while i != numdeflateblocks && error == 0
      invariant i <= numdeflateblocks
      invariant error == 0 ==> w.Valid() && (settings.use_lz77 ==> hash.Describes(data, BlockStart(|data|, blocksize, i) - 1))
      invariant error == 0 ==>
        WrittenSoFar(data, BlockStart(|data|, blocksize, i), blocks, i == numdeflateblocks, w.Written())
      invariant error == 0 ==>
        i == 0 || DeflateError(settings, |data|) == 0 || (!settings.use_lz77 && settings.btype == 2 && i == 1)
      invariant error != 0 ==> error == DeflateError(settings, |data|)
      decreases numdeflateblocks - i
    {
      var final := i == numdeflateblocks - 1;
      var start := i * blocksize;
      var end := start + blocksize;
      if end > |data| { end := |data|; }
      BlockBounds(|data|, blocksize, numdeflateblocks, i);
      error, blocks := DeflateOneBlock(w, hash, data, start, end, settings, final, blocks);
      i := i + 1;
    }
  }

  /** Where block i starts, or the end of the data. */
  function BlockStart(insize: nat, blocksize: nat, i: nat): nat {
    if i * blocksize <= insize then i * blocksize else insize
  }

  /** The blocks are just enough to hold the data. */
  lemma BlockCount(insize: nat, blocksize: nat, n: nat)
    requires blocksize > 0
    requires n == if (insize + blocksize - 1) / blocksize == 0 then 1 else (insize + blocksize - 1) / blocksize
    ensures n > 0 && insize <= n * blocksize
    ensures insize > 0 ==> (n - 1) * blocksize < insize
    ensures n == 1 <==> insize <= blocksize
  {
    var m := insize + blocksize - 1;
    assert m == m / blocksize * blocksize + m % blocksize;
    if m / blocksize == 0 {
      assert insize == 0;
    } else {
      assert (n - 1) * blocksize == n * blocksize - blocksize;
    }
  }

  lemma BlockBounds(insize: nat, blocksize: nat, n: nat, i: nat)
    requires blocksize > 0 && i < n && insize <= n * blocksize
    requires if insize == 0 then n == 1 else (n - 1) * blocksize < insize
    ensures i * blocksize <= insize && BlockStart(insize, blocksize, i) == i * blocksize
    ensures BlockStart(insize, blocksize, i + 1)
         == if i * blocksize + blocksize > insize then insize else i * blocksize + blocksize
    ensures i == n - 1 ==> BlockStart(insize, blocksize, i + 1) == insize
    ensures i > 0 ==> 0 < i * blocksize < insize
  {
    assert (i + 1) * blocksize == i * blocksize + blocksize;
    MulAtLeast(i, blocksize);
    MulAtLeast(n - 1 - i, blocksize);
    assert (n - 1 - i) * blocksize == (n - 1) * blocksize - i * blocksize;
  }

  lemma WriterBits(w: BitWriter)
    requires w.Valid()
    ensures w.bp <= 8 * |w.data| && w.Written() == StreamBits(w.data)[..w.bp]
  {
  }

  // ---- The round trip ----

  /**
   * Compressing and decompressing gives the data back, with one exception: stored mode writes
   * no block at all for empty input, and the decompressor refuses the empty stream.
   */
  method RoundTrip(data: seq<Byte>, settings: CompressSettings) returns (error: nat, result: seq<Byte>)
    requires settings.btype == 1 ==> data != []
    requires DeflateError(settings, |data|) == 0
    ensures error == 0 <==> (settings.btype == 0 ==> data != [])
    ensures error == 0 ==> result == data
  {
    hide ReadBlocks, StreamBits, WrittenSoFar;
    var compressed;
    ghost var blocks, bp;
    error, compressed, blocks, bp := DeflateStream(data, settings);
    if settings.btype == 0 ==> data != [] { StreamDecodes(data, blocks, compressed, bp); }
    var decoder := new Inflator(compressed);
    error := decoder.InflateStream();
    result := decoder.out;
  }
}
