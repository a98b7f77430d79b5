/** Both passes of the encoder with optimized tables, then the decoder (compositor/jpge.cpp:765-781, compositor/jpgd.cpp:1757-1854, 2213-2350). */
module JpegRoundTrip {
  import opened Bits
  import opened PrefixCode
  import opened Canonical
  import opened JpegBits
  import opened WordBits
  import opened JpegReader
  import opened JpegTables
  import opened JpegTreeSize
  import opened JpegLookup
  import opened JpegDecode
  import opened JpegBlocks
  import opened JpegBlockDecode
  import opened JpegScan
  import opened JpegMoffat
  import opened JpegSymbols
  import opened JpegOptimize
  import opened JpegCounts
  import opened JpegTotals

  /** 63 * 146467 is less than the sum of weights that a code of 33 bits needs. */
  const MOST_BLOCKS: nat := 146467

  /** The table can be used by the encoder and by the decoder. */
  ghost predicate Usable(t: TableSpec, counts: seq<nat>, n: nat) {
    && ValidTable(t) && |Inner(Codes(Sizes(t.bits)))| <= 256 && CodesForCounted(t, counts, n)
  }

  lemma TableUsable(t: TableSpec, counts: seq<nat>, n: nat)
    requires TableFor(t, counts, n)
    ensures Usable(t, counts, n)
  {
  }

  /** How often pass one counts each symbol of the two kinds of tables. */
  function DcCounts(blocks: seq<Block>, first: bool): seq<nat>
  {
    seq(256, s requires 0 <= s < 256 => DcCount(blocks, first, s))
  }

  function AcCounts(blocks: seq<Block>, first: bool): seq<nat>
  {
    seq(256, s requires 0 <= s < 256 => AcCount(blocks, first, s))
  }

  /** No symbol of a scan would get a code of more than 32 bits. */
  predicate ShortCodes(blocks: seq<Block>)
  {
    && CodeHeight(DcCounts(blocks, true), 12) <= 32 && CodeHeight(AcCounts(blocks, true), 256) <= 32
    && CodeHeight(DcCounts(blocks, false), 12) <= 32 && CodeHeight(AcCounts(blocks, false), 256) <= 32
  }

  lemma CountsAre(blocks: seq<Block>, first: bool, dc: seq<nat>, ac: seq<nat>)
    requires TableCounts(dc, ac, blocks, first)
    ensures dc == DcCounts(blocks, first) && ac == AcCounts(blocks, first)
  {
    hide DcCount, AcCount;
  }

  method OneTable(counts: array<nat>, n: nat) returns (ok: bool, t: TableSpec)
    requires counts.Length == 256 && n <= 256 && |Used(counts[..], n)| <= 255 && Sum(counts[..]) < 0xFFFF_FFFF
    ensures ok ==> Usable(t, counts[..], n)
    ensures ok <==> CodeHeight(counts[..], n) <= 32
    ensures Sum(counts[..]) < 9227464 ==> ok
  {
    hide *;
    PartOfSum(counts[..], n);
    assert counts[..][..n] == counts[..n];
    ghost var syms, l, num;
    ok, t, syms, l, num := OptimizeHuffmanTable(counts, n);
    if ok { TableUsable(t, counts[..], n); }
  }

  /** terminate_pass_one: the four tables of the scan. */
  method OptimizeTables(e: JpegEncoder) returns (ok: bool, t: Tables)
    requires e.Counting() && 63 * |e.blocks| < 0xFFFF_FFFF
    ensures ok ==>
      && Usable(t.dc0, e.dc_count0[..], 12) && Usable(t.ac0, e.ac_count0[..], 256)
      && Usable(t.dc1, e.dc_count1[..], 12) && Usable(t.ac1, e.ac_count1[..], 256)
    ensures ok <==> ShortCodes(e.blocks)
    ensures |e.blocks| <= MOST_BLOCKS ==> ok
  {
    hide CodeHeight, DcCounts, AcCounts, Sum, Used, Usable, TableCounts, ValidBlock, LastDc;
    CountsSum(e.blocks, true, e.dc_count0[..], e.ac_count0[..]);
    CountsSum(e.blocks, false, e.dc_count1[..], e.ac_count1[..]);
    FewSymbols(e.blocks, true, e.dc_count0[..], e.ac_count0[..]);
    FewSymbols(e.blocks, false, e.dc_count1[..], e.ac_count1[..]);
    CountsAre(e.blocks, true, e.dc_count0[..], e.ac_count0[..]);
    CountsAre(e.blocks, false, e.dc_count1[..], e.ac_count1[..]);
    var ok0, dc0 := OneTable(e.dc_count0, 12);
    var ok1, ac0 := OneTable(e.ac_count0, 256);
    var ok2, dc1 := OneTable(e.dc_count1, 12);
    var ok3, ac1 := OneTable(e.ac_count1, 256);
    ok, t := ok0 && ok1 && ok2 && ok3, Tables(dc0, ac0, dc1, ac1);
  }

  method DecoderTable(t: TableSpec) returns (h: HuffTables)
    requires ValidTable(t) && |Inner(Codes(Sizes(t.bits)))| <= 256
    ensures Complete(h, t) && fresh(h) && fresh(h.look_up) && fresh(h.look_up2) && fresh(h.tree)
  {
    hide FittingLengths, Sizes, Codes, Inner, HuffTables.Holds;
    h := new HuffTables();
    var ok := h.MakeHuffTable(t);
  }

  /** The arrays of the encoder for the four tables. */
  method EncoderArrays(t: Tables) returns (codes: seq<seq<nat>>, sizes: seq<seq<nat>>)
    requires t.Valid()
    ensures EncoderTables(codes, sizes, t)
  {
    hide ValidTable, EncoderTable;
    var c0, s0 := ComputeHuffmanTable(t.dc0);
    var c1, s1 := ComputeHuffmanTable(t.dc1);
    var c2, s2 := ComputeHuffmanTable(t.ac0);
    var c3, s3 := ComputeHuffmanTable(t.ac1);
    codes, sizes := [c0, c1, c2, c3], [s0, s1, s2, s3];
  }

  /** The encoder's side: count, optimize, write. */
  method Encode(blocks: seq<Block>) returns (ok: bool, t: Tables, data: seq<Byte>, ghost plain: seq<Byte>)
    requires ValidScan(blocks) && SmallDifferences(blocks) && 63 * |blocks| < 0xFFFF_FFFF
    ensures (ok <==> ShortCodes(blocks)) && (|blocks| <= MOST_BLOCKS ==> ok)
    ensures ok ==>
      && t.Valid() && ScanCodable(t, blocks) && TreesFit(t)
      && data == Stuff(plain) + [255, 217]
      && ScanAhead(t, blocks, plain, 0) && Feeds(data, 0, plain, 0)
  {
    hide ShortCodes, TableCounts, ValidScan, SmallDifferences, LastDc, ScanBits, ScanCodable, ScanAhead, ValidTable, BitPutter.Valid,
         BitPutter.Written, CodesForCounted, EncoderTables, Feeds, Codes, Inner, Sizes;
    plain, data := [], [];
    var e := new JpegEncoder();
    CountScan(e, blocks);
    ok, t := OptimizeTables(e);
    if !ok { return; }
    CountedIsCodable(blocks, t, e.dc_count0[..], e.ac_count0[..], e.dc_count1[..], e.ac_count1[..]);
    var codes, sizes := EncoderArrays(t);
    data, plain := EncodeScan(e, blocks, t, codes, sizes);
    WrittenScanAhead(t, blocks, plain);
  }

  /** The decoder's trees have room for the codes of all tables. */
  ghost predicate TreesFit(t: Tables)
    requires t.Valid()
  {
    && |Inner(Codes(Sizes(t.dc0.bits)))| <= 256 && |Inner(Codes(Sizes(t.ac0.bits)))| <= 256
    && |Inner(Codes(Sizes(t.dc1.bits)))| <= 256 && |Inner(Codes(Sizes(t.ac1.bits)))| <= 256
  }

  /** The decoder's side, with the tables of the file. */
  method Decode(t: Tables, data: seq<Byte>, mcus: nat, mcu_org: seq<nat>, q: seq<seq<int>>, ghost blocks: seq<Block>,
                ghost plain: seq<Byte>) returns (error: bool, decoded: seq<seq<int>>)
    requires t.Valid() && TreesFit(t) && Feeds(data, 0, plain, 0)
    requires |q| == 3 && forall comp :: 0 <= comp < 3 ==> |q[comp]| == 64
    requires forall slot :: 0 <= slot < |mcu_org| ==> mcu_org[slot] < 3
    requires |blocks| == mcus * |mcu_org| && ValidScan(blocks) && ScanCodable(t, blocks)
    requires forall i :: 0 <= i < |blocks| ==> |mcu_org| > 0 && blocks[i].comp == mcu_org[i % |mcu_org|]
    requires ScanAhead(t, blocks, plain, 0)
    ensures !error && |decoded| == |blocks|
    ensures forall i :: 0 <= i < |blocks| ==> Recovered(decoded[i], 0, blocks[i].c, q[blocks[i].comp])
  {
    hide ValidScan, LastDc, ScanBits, ScanCodable, ScanAhead, ValidTable, BitReader.Valid, Feeds, Complete, Recovered, SlotsOk,
         HuffTables.Holds, Codes, Inner, Sizes;
    var r := new BitReader(data, 0, 0, plain);
    var dc0 := DecoderTable(t.dc0);
    var ac0 := DecoderTable(t.ac0);
    var dc1 := DecoderTable(t.dc1);
    var ac1 := DecoderTable(t.ac1);
    var d := new JpegDecoder(|mcu_org|, r, dc0, ac0, dc1, ac1);
    FreshDecoder(d, t);
    error, decoded := d.DecodeScan(mcus, mcu_org, q, t, blocks);
  }

  /**
   * Blocks of quantized coefficients through the encoder's two passes with optimized tables and through the decoder:
   * every coefficient comes back, times its entry of the quantization table. `ok` is false exactly if a code
   * length exceeds 32 bits; MOST_BLOCKS is a sufficient bound against that, not the least one.
   */
  method RoundTrip(blocks: seq<Block>, mcus: nat, mcu_org: seq<nat>, q: seq<seq<int>>)
    returns (ok: bool, error: bool, decoded: seq<seq<int>>)
    requires ValidScan(blocks) && SmallDifferences(blocks) && 63 * |blocks| < 0xFFFF_FFFF
    requires |q| == 3 && forall comp :: 0 <= comp < 3 ==> |q[comp]| == 64
    requires forall slot :: 0 <= slot < |mcu_org| ==> mcu_org[slot] < 3
    requires |blocks| == mcus * |mcu_org|
    requires forall i :: 0 <= i < |blocks| ==> |mcu_org| > 0 && blocks[i].comp == mcu_org[i % |mcu_org|]
    ensures (ok <==> ShortCodes(blocks)) && (|blocks| <= MOST_BLOCKS ==> ok)
    ensures ok ==> !error && |decoded| == |blocks|
    ensures ok ==> forall i :: 0 <= i < |blocks| ==> Recovered(decoded[i], 0, blocks[i].c, q[blocks[i].comp])
  {
    hide ShortCodes, ValidScan, SmallDifferences, ScanBits, ScanCodable, ScanAhead, ValidTable, Feeds, Recovered, TreesFit;
    error, decoded := false, [];
    var t, data;
    ghost var plain;
    ok, t, data, plain := Encode(blocks);
    if ok {
      error, decoded := Decode(t, data, mcus, mcu_org, q, blocks, plain);
    }
  }
}
