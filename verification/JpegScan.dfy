/**
 * A whole scan: both passes of the encoder over the blocks of all components, and the decoder's loop over them
 * (compositor/jpge.cpp:415-436, 719-773, compositor/jpgd.cpp:1757-1854).
 */
module JpegScan {
  import opened Bits
  import opened PrefixCode
  import opened Canonical
  import opened PixelBits
  import opened JpegBits
  import opened WordBits
  import opened JpegReader
  import opened JpegTables
  import opened JpegLookup
  import opened JpegDecode
  import opened JpegBlocks
  import opened JpegZigzag
  import opened JpegBlockDecode

  /** Quantized coefficients, in zigzag order, of a block of one component. */
  datatype Block = Block(comp: nat, c: seq<int>)

  /** Tables for the first component and for the others. */
  datatype Tables = Tables(dc0: TableSpec, ac0: TableSpec, dc1: TableSpec, ac1: TableSpec)
  {
    function Dc(comp: nat): TableSpec { if comp == 0 then dc0 else dc1 }

    function Ac(comp: nat): TableSpec { if comp == 0 then ac0 else ac1 }

    ghost predicate Valid() { ValidTable(dc0) && ValidTable(ac0) && ValidTable(dc1) && ValidTable(ac1) }
  }

  ghost predicate ValidScan(blocks: seq<Block>) {
    forall i :: 0 <= i < |blocks| ==> blocks[i].comp < 3 && ValidBlock(blocks[i].c)
  }

  /** The prediction for a component: the first coefficient of its last block, zero before its first one. */
  function LastDc(blocks: seq<Block>, comp: nat): int {
    if blocks == [] then 0
    else
      var b := blocks[|blocks| - 1];
      if b.comp == comp && b.c != [] then b.c[0] else LastDc(blocks[..|blocks| - 1], comp)
  }

  function DiffItem(blocks: seq<Block>, b: Block): Item
    requires b.c != []
  {
    DcItem(b.c[0] - LastDc(blocks, b.comp))
  }

  /** The bits of a block behind other blocks. */
  ghost function BlockBits(t: Tables, blocks: seq<Block>, b: Block): BitString
    requires t.Valid() && ValidBlock(b.c)
  {
    ItemBits(t.Dc(b.comp), DiffItem(blocks, b)) + ItemsBits(t.Ac(b.comp), AcItems(b.c, 1))
  }

  ghost function ScanBits(t: Tables, blocks: seq<Block>): BitString
    requires t.Valid() && ValidScan(blocks)
  {
    if blocks == [] then []
    else ScanBits(t, blocks[..|blocks| - 1]) + BlockBits(t, blocks[..|blocks| - 1], blocks[|blocks| - 1])
  }

  /** Every symbol of the block has a code. */
  ghost predicate BlockCodable(t: Tables, blocks: seq<Block>, b: Block)
    requires t.Valid() && ValidBlock(b.c)
  {
    Codable(t.Dc(b.comp), DiffItem(blocks, b)) && AllCodable(t.Ac(b.comp), AcItems(b.c, 1))
  }

  ghost predicate ScanCodable(t: Tables, blocks: seq<Block>)
    requires t.Valid() && ValidScan(blocks)
  {
    forall i {:trigger blocks[..i]} {:trigger blocks[i]} :: 0 <= i < |blocks| ==> BlockCodable(t, blocks[..i], blocks[i])
  }

  // ---- The encoder ----

  /** What the four tables of counts hold after the blocks: the symbols of each kind of table. */
  function DcCount(blocks: seq<Block>, first: bool, symbol: nat): nat {
    if blocks == [] then 0
    else
      var front, b := blocks[..|blocks| - 1], blocks[|blocks| - 1];
      DcCount(front, first, symbol) +
      (if (b.comp == 0) == first && b.c != [] then Occurrences([DiffItem(front, b)], symbol) else 0)
  }

  function AcCount(blocks: seq<Block>, first: bool, symbol: nat): nat {
    if blocks == [] then 0
    else
      var front, b := blocks[..|blocks| - 1], blocks[|blocks| - 1];
      AcCount(front, first, symbol) +
      (if (b.comp == 0) == first && |b.c| > 0 then Occurrences(AcItems(b.c, 1), symbol) else 0)
  }

  ghost predicate TableCounts(dc: seq<nat>, ac: seq<nat>, blocks: seq<Block>, first: bool) {
    && |dc| == 256 == |ac|
    && forall s: nat :: s < 256 ==> dc[s] == DcCount(blocks, first, s) && ac[s] == AcCount(blocks, first, s)
  }

  lemma TableStep(dc: seq<nat>, ac: seq<nat>, dc': seq<nat>, ac': seq<nat>, blocks: seq<Block>, b: Block, first: bool)
    requires TableCounts(dc, ac, blocks, first) && (b.comp == 0) == first && ValidBlock(b.c)
    requires Counted(dc, dc', [DiffItem(blocks, b)]) && Counted(ac, ac', AcItems(b.c, 1))
    ensures TableCounts(dc', ac', blocks + [b], first)
  {
    hide Occurrences, DiffItem, AcItems;
    assert (blocks + [b])[..|blocks|] == blocks;
  }

  /** The other table of a kind does not change. */
  lemma TableSame(dc: seq<nat>, ac: seq<nat>, blocks: seq<Block>, b: Block, first: bool)
    requires TableCounts(dc, ac, blocks, first) && (b.comp == 0) != first
    ensures TableCounts(dc, ac, blocks + [b], first)
  {
    hide Occurrences, DiffItem, AcItems;
    assert (blocks + [b])[..|blocks|] == blocks;
  }

  class JpegEncoder {
    var last_dc_val: seq<int>
    var pass_num: nat
    const dc_count0: array<nat>
    const ac_count0: array<nat>
    const dc_count1: array<nat>
    const ac_count1: array<nat>
    const w: BitPutter
    /** The blocks of the current pass. */
    ghost var blocks: seq<Block>

    ghost predicate Shape()
      reads this
    {
      && dc_count0.Length == 256 == ac_count0.Length && dc_count1.Length == 256 == ac_count1.Length
      && dc_count0 != ac_count0 && dc_count0 != dc_count1 && dc_count0 != ac_count1
      && ac_count0 != dc_count1 && ac_count0 != ac_count1 && dc_count1 != ac_count1
      && |last_dc_val| == 3 && ValidScan(blocks)
      && forall comp: nat :: comp < 3 ==> last_dc_val[comp] == LastDc(blocks, comp)
    }

    /** In pass one the counts are those of the blocks so far. */
    ghost predicate Counting()
      reads this, dc_count0, ac_count0, dc_count1, ac_count1
    {
      && Shape() && pass_num == 1
      && TableCounts(dc_count0[..], ac_count0[..], blocks, true)
      && TableCounts(dc_count1[..], ac_count1[..], blocks, false)
    }

    /** In pass two the bits written are those of the blocks so far. */
    ghost predicate Writing(t: Tables)
      requires t.Valid()
      reads this, w
    {
      Shape() && pass_num == 2 && w.Valid() && w.Written() == ScanBits(t, blocks)
    }

    /** first_pass_init, with cleared counts. */
    constructor ()
      ensures Counting() && blocks == [] && fresh(w) && w.Valid() && w.Written() == [] && fresh(dc_count0) && fresh(ac_count0) && fresh(dc_count1) && fresh(ac_count1)
    {
      last_dc_val, pass_num, blocks := [0, 0, 0], 1, [];
      dc_count0 := new nat[256](_ => 0);
      ac_count0 := new nat[256](_ => 0);
      dc_count1 := new nat[256](_ => 0);
      ac_count1 := new nat[256](_ => 0);
      w := new BitPutter();
    }

    /** second_pass_init: predictions start again from zero. */
    method SecondPassInit(ghost t: Tables)
      requires t.Valid() && Shape() && w.Valid() && w.Written() == []
      modifies this`last_dc_val, this`pass_num, this`blocks
      ensures Writing(t) && blocks == []
    {
      last_dc_val, pass_num, blocks := [0, 0, 0], 2, [];
    }

    /** code_block in pass one. */
    method CountBlock(b: Block)
      requires Counting() && b.comp < 3 && ValidBlock(b.c)
      modifies this`last_dc_val, this`blocks, dc_count0, ac_count0, dc_count1, ac_count1
      ensures Counting() && blocks == old(blocks) + [b]
    {
      hide AcItems, Occurrences, DiffItem, Counted, TableCounts;
      ghost var before := blocks;
      PredictionRange(blocks, b);
      DiffItemIs(before, b);
      ghost var dc0, ac0, dc1, ac1 := dc_count0[..], ac_count0[..], dc_count1[..], ac_count1[..];
      var dc;
      if b.comp == 0 {
        dc := CodeCoefficientsPassOne(b.c, last_dc_val[b.comp], dc_count0, ac_count0);
        TableStep(dc0, ac0, dc_count0[..], ac_count0[..], before, b, true);
        TableSame(dc1, ac1, before, b, false);
      } else {
        dc := CodeCoefficientsPassOne(b.c, last_dc_val[b.comp], dc_count1, ac_count1);
        TableStep(dc1, ac1, dc_count1[..], ac_count1[..], before, b, false);
        TableSame(dc0, ac0, before, b, true);
      }
      last_dc_val := last_dc_val[b.comp := dc];
      blocks := blocks + [b];
      assert blocks[..|before|] == before;
    }

    /** code_block in pass two. */
    method WriteBlock(b: Block, codes: seq<seq<nat>>, sizes: seq<seq<nat>>, ghost t: Tables)
      requires t.Valid() && Writing(t) && b.comp < 3 && ValidBlock(b.c) && BlockCodable(t, blocks, b)
      requires EncoderTables(codes, sizes, t)
      modifies this`last_dc_val, this`blocks, w
      ensures Writing(t) && blocks == old(blocks) + [b]
    {
      hide AcItems, DiffItem, ValidTable, ItemBits, ItemsBits, BitPutter.Valid, BitPutter.Written, Codable, AllCodable, EncoderTable,
           EncoderTables, LastDc, ScanBits, BlockCodable, ValidScan;
      ghost var before := blocks;
      DiffItemIs(before, b);
      CodableParts(t, before, b);
      EncoderTablesAt(codes, sizes, t, b.comp);
      PredictionNext(before, b);
      var k := if b.comp == 0 then 0 else 1;
      var dc := CodeCoefficientsPassTwo(w, b.c, last_dc_val[b.comp], codes[k], sizes[k], codes[2 + k], sizes[2 + k],
                                        t.Dc(b.comp), t.Ac(b.comp));
      last_dc_val := last_dc_val[b.comp := dc];
      blocks := blocks + [b];
      BlockBitsAre(t, before, b);
    }
  }

  /** The arrays of codes and lengths: two for first coefficients, two for the others. */
  ghost predicate EncoderTables(codes: seq<seq<nat>>, sizes: seq<seq<nat>>, t: Tables)
    requires t.Valid()
  {
    && |codes| == 4 == |sizes|
    && EncoderTable(codes[0], sizes[0], t.dc0) && EncoderTable(codes[1], sizes[1], t.dc1)
    && EncoderTable(codes[2], sizes[2], t.ac0) && EncoderTable(codes[3], sizes[3], t.ac1)
  }

  lemma EncoderTablesAt(codes: seq<seq<nat>>, sizes: seq<seq<nat>>, t: Tables, comp: nat)
    requires t.Valid() && EncoderTables(codes, sizes, t)
    ensures
      var k := if comp == 0 then 0 else 1;
      && |codes| == 4 == |sizes| && ValidTable(t.Dc(comp)) && ValidTable(t.Ac(comp))
      && EncoderTable(codes[k], sizes[k], t.Dc(comp)) && EncoderTable(codes[2 + k], sizes[2 + k], t.Ac(comp))
  {
    hide EncoderTable, ValidTable;
  }

  lemma CodableParts(t: Tables, blocks: seq<Block>, b: Block)
    requires t.Valid() && ValidBlock(b.c) && BlockCodable(t, blocks, b)
    ensures Codable(t.Dc(b.comp), DiffItem(blocks, b)) && AllCodable(t.Ac(b.comp), AcItems(b.c, 1))
  {
    hide Codable, AllCodable, AcItems, DiffItem, ValidTable;
  }

  /** Only the prediction for the component of a block changes with it. */
  lemma PredictionNext(blocks: seq<Block>, b: Block)
    requires ValidScan(blocks) && b.comp < 3 && ValidBlock(b.c)
    ensures ValidScan(blocks + [b])
    ensures forall comp :: LastDc(blocks + [b], comp) == if comp == b.comp then b.c[0] else LastDc(blocks, comp)
  {
    assert (blocks + [b])[..|blocks|] == blocks;
  }

  lemma DiffItemIs(blocks: seq<Block>, b: Block)
    requires ValidBlock(b.c)
    ensures DiffItem(blocks, b) == DcItem(b.c[0] - LastDc(blocks, b.comp))
  {
  }

  lemma BlockBitsAre(t: Tables, blocks: seq<Block>, b: Block)
    requires t.Valid() && ValidScan(blocks) && b.comp < 3 && ValidBlock(b.c)
    ensures ValidScan(blocks + [b])
    ensures forall s: BitString :: s == ScanBits(t, blocks) ==>
      s + ItemBits(t.Dc(b.comp), DiffItem(blocks, b)) + ItemsBits(t.Ac(b.comp), AcItems(b.c, 1)) == ScanBits(t, blocks + [b])
  {
    hide ItemBits, ItemsBits, AcItems, DiffItem, ValidTable, ValidBlock;
    assert (blocks + [b])[..|blocks|] == blocks;
  }

  lemma {:induction false} PredictionBound(blocks: seq<Block>, comp: nat)
    requires ValidScan(blocks)
    ensures Magnitude(LastDc(blocks, comp)) < 32768
  {
    if blocks != [] { PredictionBound(blocks[..|blocks| - 1], comp); }
  }

  lemma PredictionRange(blocks: seq<Block>, b: Block)
    requires ValidScan(blocks) && ValidBlock(b.c)
    ensures Magnitude(b.c[0] - LastDc(blocks, b.comp)) < 65536
  {
    PredictionBound(blocks, b.comp);
  }

  // ---- The two passes see the same symbols ----

  lemma {:induction false} CountsGrow(blocks: seq<Block>, n: nat, first: bool, s: nat)
    requires n <= |blocks|
    ensures DcCount(blocks[..n], first, s) <= DcCount(blocks, first, s) && AcCount(blocks[..n], first, s) <= AcCount(blocks, first, s)
    decreases |blocks|
  {
    hide Occurrences, DiffItem, AcItems;
    if n < |blocks| {
      var front := blocks[..|blocks| - 1];
      assert front[..n] == blocks[..n];
      CountsGrow(front, n, first, s);
    } else {
      assert blocks[..n] == blocks;
    }
  }

  lemma {:induction false} OccursOnce(items: seq<Item>, i: nat)
    requires i < |items|
    ensures Occurrences(items, items[i].symbol) > 0
  {
    if i < |items| - 1 { OccursOnce(items[..|items| - 1], i); }
  }

  /** What is coded in pass two has been counted in pass one. */
  lemma CodedIsCounted(blocks: seq<Block>, i: nat)
    requires ValidScan(blocks) && i < |blocks|
    ensures DcCount(blocks, blocks[i].comp == 0, DiffItem(blocks[..i], blocks[i]).symbol) > 0
    ensures forall j :: 0 <= j < |AcItems(blocks[i].c, 1)| ==> AcCount(blocks, blocks[i].comp == 0, AcItems(blocks[i].c, 1)[j].symbol) > 0
  {
    hide Occurrences, DiffItem, AcItems;
    var b, before := blocks[i], blocks[..i];
    var upTo := blocks[..i + 1];
    assert upTo[..|upTo| - 1] == before && upTo[|upTo| - 1] == b;
    var diff := DiffItem(before, b);
    OccursOnce([diff], 0);
    CountsGrow(blocks, i + 1, b.comp == 0, diff.symbol);
    var items := AcItems(b.c, 1);
    forall j | 0 <= j < |items| ensures AcCount(blocks, b.comp == 0, items[j].symbol) > 0 {
      OccursOnce(items, j);
      CountsGrow(blocks, i + 1, b.comp == 0, items[j].symbol);
    }
  }

  /** The differences of first coefficients that a baseline table of 12 symbols can code. */
  ghost predicate SmallDifferences(blocks: seq<Block>) {
    forall i :: 0 <= i < |blocks| ==> blocks[i].c != [] && DiffItem(blocks[..i], blocks[i]).nbits < 12
  }

  /** The low four bits of a symbol are how many extra bits it has; only two symbols have none. */
  ghost predicate ItemShape(item: Item) {
    && item.symbol < 256 && item.symbol % 16 == item.nbits && item.value < Pow2(item.nbits)
    && (item.nbits == 0 ==> item.symbol == 0 || item.symbol == 0xF0)
  }

  lemma {:induction false} AcItemsShape(c: seq<int>, k: nat, j: nat)
    requires ValidBlock(c) && 1 <= k <= 64 && j < |AcItems(c, k)|
    ensures ItemShape(AcItems(c, k)[j])
    decreases 64 - k
  {
    hide ItemShape, AcItem, ZeroRun;
    var z := ZeroRun(c, k);
    AcItemsStep(c, k, z);
    ShapeOfZeros();
    if k + z == 64 {
    } else if z >= 16 {
      if j > 0 { AcItemsShape(c, k + 16, j - 1); }
    } else {
      ShapeOfItem(z, c[k + z]);
      if j > 0 { AcItemsShape(c, k + z + 1, j - 1); }
    }
  }

  lemma ShapeOfItem(run: nat, v: int)
    requires run < 16 && v != 0 && Magnitude(v) < 32768
    ensures ItemShape(AcItem(run, v))
  {
    hide BitLength, ExtraBits;
    SymbolFits(run, v);
  }

  lemma ShapeOfZeros()
    ensures ItemShape(END_OF_BLOCK) && ItemShape(SIXTEEN_ZEROS)
  {
  }

  /**
   * Tables with a code for every counted symbol code every block of the second pass, if it is fed the same blocks
   * and their first coefficients do not jump by more than 2047.
   */
  lemma CountedIsCodable(blocks: seq<Block>, t: Tables, dc0: seq<nat>, ac0: seq<nat>, dc1: seq<nat>, ac1: seq<nat>)
    requires ValidScan(blocks) && t.Valid() && SmallDifferences(blocks)
    requires TableCounts(dc0, ac0, blocks, true) && TableCounts(dc1, ac1, blocks, false)
    requires CodesForCounted(t.dc0, dc0, 12) && CodesForCounted(t.ac0, ac0, 256)
    requires CodesForCounted(t.dc1, dc1, 12) && CodesForCounted(t.ac1, ac1, 256)
    ensures ScanCodable(t, blocks)
  {
    hide AcItems, DiffItem, ValidTable, SymbolCode, ValidBlock;
    forall i | 0 <= i < |blocks| ensures BlockCodable(t, blocks[..i], blocks[i]) {
      var b := blocks[i];
      CodedIsCounted(blocks, i);
      DiffShape(blocks[..i], b);
      forall j | 0 <= j < |AcItems(b.c, 1)| ensures Codable(t.Ac(b.comp), AcItems(b.c, 1)[j]) {
        AcItemsShape(b.c, 1, j);
      }
    }
  }

  lemma DiffShape(blocks: seq<Block>, b: Block)
    requires ValidBlock(b.c)
    ensures b.c != [] && DiffItem(blocks, b).symbol == DiffItem(blocks, b).nbits
    ensures DiffItem(blocks, b).value < Pow2(DiffItem(blocks, b).nbits)
  {
    hide BitLength, ExtraBits;
  }

  // ---- The decoder ----

  /** The item lies ahead. */
  ghost predicate ItemAhead(t: TableSpec, item: Item, u: seq<Byte>, bp: nat)
    requires ValidTable(t)
  {
    Ahead(u, bp, |ItemBits(t, item)|) == ItemBits(t, item)
  }

  /** An item that lies ahead is decoded. */
  lemma DecodesItem(t: TableSpec, item: Item, u: seq<Byte>, bp: nat, symbol: nat, length: nat)
    requires ValidTable(t) && Codable(t, item) && ItemAhead(t, item, u, bp) && Decodes(t, u, bp, symbol, length)
    ensures symbol == item.symbol && length + item.nbits == |ItemBits(t, item)|
    ensures CodeValue(Ahead(u, bp + length, item.nbits)) == item.value
  {
    hide ValidTable, Decodes, CodeBits, CodeValue, SymbolCode;
    var code, extra := SymbolCode(t, item.symbol), CodeBits(item.value, item.nbits);
    AheadConcat(u, bp, |code|, |extra|);
    SameParts(code, extra, [], Ahead(u, bp, |code|), Ahead(u, bp + |code|, |extra|), []);
    assert SymbolAhead(t, item.symbol, u, bp);
    DecodesSymbol(t, u, bp, symbol, length, item.symbol);
    CodeValueOfCodeBits(item.value, item.nbits);
  }

  /** The difference of first coefficients comes back. */
  lemma DiffBack(blocks: seq<Block>, b: Block)
    requires ValidBlock(b.c) && DiffItem(blocks, b).nbits < 16
    ensures
      var item := DiffItem(blocks, b);
      Extend(item.value, item.symbol) + LastDc(blocks, b.comp) == b.c[0]
  {
    hide BitLength, Extend, ExtraBits;
    var diff := b.c[0] - LastDc(blocks, b.comp);
    BitLengthBounds(Magnitude(diff));
    WordPower();
    Pow2Monotone(BitLength(Magnitude(diff)), 15);
    ExtendExtra(diff);
  }

  /** A block in memory, times its quantization table. */
  ghost predicate Recovered(p: seq<int>, base: nat, c: seq<int>, q: seq<int>) {
    && |c| == 64 == |q| && base + 64 <= |p|
    && forall i: nat {:trigger Zag(i)} :: i < 64 ==> Zag(i) < 64 && p[base + Zag(i)] == Cast16(c[i] * q[i])
  }

  /** A slot of the MCU is zero behind the last coefficient of the block that it holds. */
  ghost predicate SlotOk(p: seq<int>, slot: nat, max_zag: nat) {
    1 <= max_zag <= 64 && BlockState(p, 64 * slot, ZeroBlock(), 0, max_zag)
  }

  ghost predicate SlotsOk(p: seq<int>, max_zag: seq<nat>) {
    |p| == 64 * |max_zag| && forall slot: nat {:trigger max_zag[slot]} :: slot < |max_zag| ==> SlotOk(p, slot, max_zag[slot])
  }

  lemma OtherSlots(before: seq<int>, now: seq<int>, max_zag: seq<nat>, slot: nat, k: nat)
    requires SlotsOk(before, max_zag) && slot < |max_zag| && SameOutside(before, now, 64 * slot) && SlotOk(now, slot, k)
    ensures SlotsOk(now, max_zag[slot := k])
  {
    hide Zag;
    forall other: nat | other < |max_zag| && other != slot ensures SlotOk(now, other, max_zag[other]) {
      assert SlotOk(before, other, max_zag[other]);
      SlotElsewhere(before, now, slot, other, max_zag[other]);
    }
  }

  lemma SlotElsewhere(before: seq<int>, now: seq<int>, slot: nat, other: nat, k: nat)
    requires SameOutside(before, now, 64 * slot) && other != slot && SlotOk(before, other, k)
    ensures SlotOk(now, other, k)
  {
    hide Zag;
    forall i | 64 * other <= i < 64 * other + 64 ensures now[i] == before[i] {
      if i < 64 * slot {
        assert now[i] == now[..64 * slot][i];
      } else {
        assert now[i] == now[64 * slot + 64..][i - 64 * slot - 64];
      }
    }
  }

  /** With its first coefficient stored, a slot is ready for the others. */
  lemma SlotReady(p: seq<int>, slot: nat, k: nat, dc: int)
    requires SlotOk(p, slot, k) && 64 * slot + 64 <= |p|
    ensures BlockState(p[64 * slot := dc], 64 * slot, ZeroBlock()[0 := dc], 1, k)
    ensures SameOutside(p, p[64 * slot := dc], 64 * slot)
  {
    hide Zag;
    assert Zag(0) == 0 by { FirstZag(); }
    forall i: nat | 0 < i < 64 ensures Zag(i) != 0 { ZagInjective(0, i); }
  }

  lemma FirstZag()
    ensures Zag(0) == 0
  {
  }

  /** After the block its slot is zero behind its last coefficient. */
  lemma SlotDone(p: seq<int>, slot: nat, coefs: seq<int>, k: nat)
    requires BlockState(p, 64 * slot, coefs, 64, k) && 1 <= k <= 64 && forall i :: k <= i < 64 ==> coefs[i] == 0
    ensures SlotOk(p, slot, k)
  {
    hide Zag;
  }

  lemma SlotRecovered(p: seq<int>, slot: nat, coefs: seq<int>, k: nat, c: seq<int>, q: seq<int>)
    requires BlockState(p, 64 * slot, coefs, 64, k) && Matches(coefs, c, q, 64) && coefs[0] == Cast16(c[0] * q[0])
    ensures Recovered(p, 64 * slot, c, q)
  {
    hide Zag, Cast16;
    assert forall i: nat :: i < 64 ==> coefs[i] == Cast16(c[i] * q[i]);
  }

  lemma {:induction false} ReplayFirst(dc: int, q: seq<int>, trace: seq<Sym>)
    requires |q| == 64
    ensures Replay(dc, q, trace).coefs[0] == dc && Replay(dc, q, trace).k >= 1
  {
    hide Cast16, Extend;
    if trace != [] { ReplayFirst(dc, q, trace[..|trace| - 1]); }
  }

  /** The bits of a coded block lie ahead. */
  ghost predicate BlockAhead(t: Tables, blocks: seq<Block>, b: Block, u: seq<Byte>, at: nat)
    requires t.Valid()
  {
    && ValidBlock(b.c) && BlockCodable(t, blocks, b)
    && Ahead(u, at, |BlockBits(t, blocks, b)|) == BlockBits(t, blocks, b)
  }

  ghost predicate ScanAhead(t: Tables, blocks: seq<Block>, u: seq<Byte>, at: nat)
    requires t.Valid() && ValidScan(blocks)
  {
    Ahead(u, at, |ScanBits(t, blocks)|) == ScanBits(t, blocks)
  }

  /** The decoder's four tables hold the codes of the scan. */
  ghost predicate FourTables(dc0: HuffTables, ac0: HuffTables, dc1: HuffTables, ac1: HuffTables, t: Tables)
    reads dc0`nodes, dc0.look_up, dc0.look_up2, dc0.tree, ac0`nodes, ac0.look_up, ac0.look_up2, ac0.tree,
          dc1`nodes, dc1.look_up, dc1.look_up2, dc1.tree, ac1`nodes, ac1.look_up, ac1.look_up2, ac1.tree
  {
    t.Valid() && Complete(dc0, t.dc0) && Complete(ac0, t.ac0) && Complete(dc1, t.dc1) && Complete(ac1, t.ac1)
  }

  class JpegDecoder {
    const coefficients: array<int>
    const max_zag: array<nat>
    var last_dc_val: seq<int>
    const r: BitReader
    const dc0: HuffTables
    const ac0: HuffTables
    const dc1: HuffTables
    const ac1: HuffTables

    ghost predicate Apart(h: HuffTables) {
      coefficients != h.look_up && coefficients != h.look_up2 && coefficients != h.tree
    }

    ghost predicate Valid(t: Tables)
      reads this, coefficients, max_zag, r, dc0, dc0.look_up, dc0.look_up2, dc0.tree, ac0, ac0.look_up, ac0.look_up2, ac0.tree,
            dc1, dc1.look_up, dc1.look_up2, dc1.tree, ac1, ac1.look_up, ac1.look_up2, ac1.tree
    {
      && t.Valid() && r.Valid() && |last_dc_val| >= 3
      && FourTables(dc0, ac0, dc1, ac1, t)
      && Apart(dc0) && Apart(ac0) && Apart(dc1) && Apart(ac1)
      && SlotsOk(coefficients[..], max_zag[..])
    }

    /** Slots that may hold anything, predictions from zero. */
    constructor (slots: nat, r: BitReader, dc0: HuffTables, ac0: HuffTables, dc1: HuffTables, ac1: HuffTables)
      ensures this.r == r && this.dc0 == dc0 && this.ac0 == ac0 && this.dc1 == dc1 && this.ac1 == ac1
      ensures fresh(coefficients) && coefficients.Length == 64 * slots && last_dc_val == [0, 0, 0, 0]
      ensures fresh(max_zag) && max_zag.Length == slots && forall slot :: 0 <= slot < slots ==> max_zag[slot] == 64
    {
      coefficients := new int[64 * slots];
      max_zag := new nat[slots](_ => 64);
      last_dc_val := [0, 0, 0, 0];
      this.r, this.dc0, this.ac0, this.dc1, this.ac1 := r, dc0, ac0, dc1, ac1;
    }

    lemma TablesReady(t: Tables, comp: nat)
      requires Valid(t)
      ensures Complete(if comp == 0 then dc0 else dc1, t.Dc(comp)) && Complete(if comp == 0 then ac0 else ac1, t.Ac(comp))
    {
      hide Complete;
    }

    lemma ValidParts(t: Tables)
      requires Valid(t)
      ensures t.Valid() && |last_dc_val| >= 3
    {
    }

    /** The block is next in the stream, and its prediction is right. */
    ghost predicate Expects(t: Tables, blocks: seq<Block>, b: Block, comp: nat)
      requires t.Valid()
      reads this`last_dc_val, r`bp
    {
      BlockAhead(t, blocks, b, r.u, r.bp) && b.comp == comp && comp < |last_dc_val| && last_dc_val[comp] == LastDc(blocks, comp)
    }

    /** The first coefficient, before quantization. */
    method DecodeFirst(comp: nat, ghost t: Tables, ghost blocks: seq<Block>, ghost b: Block) returns (s: int)
      requires Valid(t) && comp < 3
      modifies this`last_dc_val, r`pos, r`tem_flag, r`taken, r`bit_buf, r`bits_left, r`bp
      ensures Valid(t) && |last_dc_val| == |old(last_dc_val)|
      ensures old(Expects(t, blocks, b, comp)) ==>
        && s == b.c[0] && last_dc_val == old(last_dc_val)[comp := s]
        && r.bp == old(r.bp) + |ItemBits(t.Dc(comp), DiffItem(blocks, b))|
    {
      hide ValidTable, Complete, BitReader.Valid, Ahead, SlotsOk, SymbolCode, Decodes, Codable, AllCodable,
           ItemBits, ItemsBits, AcItems, Extend, DiffItem, CodeValue, ItemsAhead, ItemAhead, LastDc, BlockAhead, FourTables;
      TablesReady(t, comp);
      ghost var u, at, ahead := r.u, r.bp, Expects(t, blocks, b, comp);
      if ahead { BlockParts(t, blocks, b, u, at); }
      var h := if comp == 0 then dc0 else dc1;
      var symbol, extra;
      ghost var length;
      symbol, extra, length := HuffDecodeExtra(h, r, t.Dc(comp));
      s := Extend(extra, symbol);
      if ahead {
        DecodesItem(t.Dc(comp), DiffItem(blocks, b), u, at, symbol, length);
        CodableBits(t.Dc(comp), DiffItem(blocks, b));
        DiffBack(blocks, b);
      }
      s := s + last_dc_val[comp];
      last_dc_val := last_dc_val[comp := s];
    }

    /**
     * Decodes the next block into a slot: its first coefficient, then the others. If the bits of a coded block
     * lie ahead, the slot holds that block, times the quantization table.
     */
    method DecodeBlock(slot: nat, comp: nat, q: seq<int>, ghost t: Tables, ghost blocks: seq<Block>, ghost b: Block)
      returns (error: bool)
      requires Valid(t) && slot < max_zag.Length && comp < 3 && |q| == 64
      modifies this`last_dc_val, coefficients, max_zag, r`pos, r`tem_flag, r`taken, r`bit_buf, r`bits_left, r`bp
      ensures !error ==> Valid(t) && |last_dc_val| == |old(last_dc_val)|
      ensures old(Expects(t, blocks, b, comp)) ==>
        && !error && r.bp == old(r.bp) + |BlockBits(t, blocks, b)|
        && last_dc_val == old(last_dc_val)[comp := b.c[0]]
        && Recovered(coefficients[..], 64 * slot, b.c, q)
    {
      hide Valid, ItemBits, ItemsBits, AcItems, DiffItem, Recovered, ItemsAhead, LastDc, BlockAhead, BlockBits, AllCodable, Codable,
           ValidTable, BlockCodable, ItemAhead, ValidBlock;
      ValidParts(t);
      ghost var ahead := Expects(t, blocks, b, comp);
      if ahead {
        BlockParts(t, blocks, b, r.u, r.bp);
        CodableParts(t, blocks, b);
      } else {
        NoBlock();
      }
      var s := DecodeFirst(comp, t, blocks, b);
      error := FillSlot(slot, s, comp, q, t, if ahead then b.c else []);
    }

    /** The other coefficients, and the record of how many of them are set. */
    method FillSlot(slot: nat, s: int, comp: nat, q: seq<int>, ghost t: Tables, ghost c: seq<int>) returns (error: bool)
      requires Valid(t) && slot < max_zag.Length && comp < 3 && |q| == 64
      requires ValidBlock(c) ==> AllCodable(t.Ac(comp), AcItems(c, 1))
      modifies coefficients, max_zag, r`pos, r`tem_flag, r`taken, r`bit_buf, r`bits_left, r`bp
      ensures !error ==> Valid(t)
      ensures ValidBlock(c) && s == c[0] && ItemsAhead(t.Ac(comp), c, 1, r.u, old(r.bp)) ==>
        && !error && r.bp == old(r.bp) + |ItemsBits(t.Ac(comp), AcItems(c, 1))|
        && Recovered(coefficients[..], 64 * slot, c, q)
    {
      hide ValidTable, Complete, BitReader.Valid, SlotsOk, SlotOk, BlockState, AllCodable, ItemsBits, AcItems, Cast16,
           Matches, Replay, TraceOf, Recovered, ItemsAhead, SameOutside, FourTables;
      TablesReady(t, comp);
      ghost var ahead := ValidBlock(c) && s == c[0] && ItemsAhead(t.Ac(comp), c, 1, r.u, r.bp);
      ghost var before := coefficients[..];
      SlotAt(before, max_zag[..], slot);
      var prev_num_set := max_zag[slot];
      var dc := Cast16(s * q[0]);
      SlotReady(before, slot, prev_num_set, dc);
      coefficients[64 * slot] := dc;
      assert coefficients[..] == before[64 * slot := dc];
      ghost var between := coefficients[..];
      var pH := if comp == 0 then ac0 else ac1;
      var k;
      ghost var trace;
      k, error, trace := DecodeAc(coefficients, 64 * slot, q, pH, r, prev_num_set, dc, t.Ac(comp), c);
      if error { return; }
      ReplayZeros(dc, q, trace);
      ReplayFirst(dc, q, trace);
      ghost var coefs := Replay(dc, q, trace).coefs;
      SlotDone(coefficients[..], slot, coefs, k);
      OutsideBoth(before, between, coefficients[..], 64 * slot);
      OtherSlots(before, coefficients[..], max_zag[..], slot, k);
      ghost var zags := max_zag[..];
      max_zag[slot] := k;
      assert max_zag[..] == zags[slot := k];
      if ahead { SlotRecovered(coefficients[..], slot, coefs, k, c, q); }
    }

    /** decode_next_row, over all MCUs of a scan: every block comes back, through slots that are reused. */
    method DecodeScan(mcus: nat, mcu_org: seq<nat>, q: seq<seq<int>>, ghost t: Tables, ghost blocks: seq<Block>)
      returns (error: bool, decoded: seq<seq<int>>)
      requires Valid(t) && |mcu_org| == max_zag.Length && |q| == 3 && forall comp :: 0 <= comp < 3 ==> |q[comp]| == 64
      requires forall slot :: 0 <= slot < |mcu_org| ==> mcu_org[slot] < 3
      requires |blocks| == mcus * |mcu_org| && ValidScan(blocks) && ScanCodable(t, blocks)
      requires forall i :: 0 <= i < |blocks| ==> |mcu_org| > 0 && blocks[i].comp == mcu_org[i % |mcu_org|]
      requires forall comp :: 0 <= comp < 3 ==> last_dc_val[comp] == 0
      modifies this`last_dc_val, coefficients, max_zag, r`pos, r`tem_flag, r`taken, r`bit_buf, r`bits_left, r`bp
      ensures ScanAhead(t, blocks, r.u, old(r.bp)) ==>
        && !error && |decoded| == |blocks|
        && forall i :: 0 <= i < |blocks| ==> Recovered(decoded[i], 0, blocks[i].c, q[blocks[i].comp])
    {
      hide Valid, ValidTable, Recovered, BlockAhead, ScanAhead, LastDc, ValidScan, ScanCodable, BlockBits, ScanBits;
      SlotsInMemory(this, t);
      ghost var start, ahead := r.bp, ScanAhead(t, blocks, r.u, r.bp);
      decoded := [];
      error := false;
      NothingRecovered(blocks, q);
      ScanStart(t, blocks);
      for mcu_row := 0 to mcus
        invariant Valid(t) && |decoded| == mcu_row * |mcu_org| && |last_dc_val| >= 3
        invariant ahead ==> InScan(t, blocks, |decoded|, start, r.bp, last_dc_val)
        invariant ahead ==> AllRecovered(decoded, blocks, q)
      {
        for mcu_block := 0 to |mcu_org|
          invariant Valid(t) && |decoded| == mcu_row * |mcu_org| + mcu_block && |last_dc_val| >= 3
          invariant ahead ==> InScan(t, blocks, |decoded|, start, r.bp, last_dc_val)
          invariant ahead ==> AllRecovered(decoded, blocks, q)
        {
          ghost var i := |decoded|;
          SlotIndex(mcu_row, mcu_block, |mcu_org|, mcus);
          if ahead { NextInScan(t, blocks, i, start, r.bp, last_dc_val, r.u); }
          error := DecodeBlock(mcu_block, mcu_org[mcu_block], q[mcu_org[mcu_block]], t, blocks[..i], blocks[i]);
          if error { return; }
          var base := 64 * mcu_block;
          SlotsInMemory(this, t);
          if ahead { OneMoreRecovered(decoded, coefficients[..], base, blocks, q); }
          assert coefficients[base..base + 64] == coefficients[..][base..base + 64];
          decoded := decoded + [coefficients[base..base + 64]];
        }
        SlotIndex(mcu_row, 0, |mcu_org|, mcu_row + 1);
      }
    }
  }

  /** A new decoder is valid: nothing is known of its slots, and max_zag says so. */
  lemma FreshDecoder(d: JpegDecoder, t: Tables)
    requires t.Valid() && d.r.Valid() && |d.last_dc_val| >= 3 && FourTables(d.dc0, d.ac0, d.dc1, d.ac1, t)
    requires d.Apart(d.dc0) && d.Apart(d.ac0) && d.Apart(d.dc1) && d.Apart(d.ac1)
    requires d.coefficients.Length == 64 * d.max_zag.Length && forall slot :: 0 <= slot < d.max_zag.Length ==> d.max_zag[slot] == 64
    ensures d.Valid(t)
  {
    FreshSlots(d.coefficients[..], d.max_zag[..]);
  }

  lemma FreshSlots(p: seq<int>, max_zag: seq<nat>)
    requires |p| == 64 * |max_zag| && forall slot :: 0 <= slot < |max_zag| ==> max_zag[slot] == 64
    ensures SlotsOk(p, max_zag)
  {
    hide Zag;
    forall i: nat | i < 64 ensures Zag(i) < 64 { ZagPlace(i); }
  }

  lemma SlotAt(p: seq<int>, max_zag: seq<nat>, slot: nat)
    requires SlotsOk(p, max_zag) && slot < |max_zag|
    ensures SlotOk(p, slot, max_zag[slot]) && 64 * slot + 64 <= |p|
  {
    hide SlotOk;
  }

  lemma OutsideBoth(a: seq<int>, b: seq<int>, c: seq<int>, base: nat)
    requires SameOutside(a, b, base) && SameOutside(b, c, base)
    ensures SameOutside(a, c, base)
  {
  }

  lemma NoBlock()
    ensures !ValidBlock([])
  {
  }

  lemma CodableBits(t: TableSpec, item: Item)
    requires ValidTable(t) && Codable(t, item)
    ensures item.nbits < 16 && item.symbol % 16 == item.nbits
  {
  }

  /** Where the decoder is after i blocks of the scan. */
  ghost predicate InScan(t: Tables, blocks: seq<Block>, i: nat, start: nat, bp: nat, last_dc_val: seq<int>)
    requires t.Valid() && ValidScan(blocks)
  {
    && i <= |blocks| && ValidScan(blocks[..i]) && bp == start + |ScanBits(t, blocks[..i])|
    && |last_dc_val| >= 3 && forall comp :: 0 <= comp < 3 ==> last_dc_val[comp] == LastDc(blocks[..i], comp)
  }

  ghost predicate AllRecovered(decoded: seq<seq<int>>, blocks: seq<Block>, q: seq<seq<int>>)
    requires |q| == 3 && ValidScan(blocks)
  {
    |decoded| <= |blocks| && forall i :: 0 <= i < |decoded| ==> Recovered(decoded[i], 0, blocks[i].c, q[blocks[i].comp])
  }

  lemma BlockBitsAt(t: Tables, blocks: seq<Block>, b: Block)
    requires t.Valid() && ValidBlock(b.c)
    ensures BlockBits(t, blocks, b) == ItemBits(t.Dc(b.comp), DiffItem(blocks, b)) + ItemsBits(t.Ac(b.comp), AcItems(b.c, 1))
  {
  }

  /** The two parts of a block in the stream. */
  lemma BlockParts(t: Tables, blocks: seq<Block>, b: Block, u: seq<Byte>, at: nat)
    requires t.Valid() && BlockAhead(t, blocks, b, u, at)
    ensures ValidBlock(b.c) && BlockCodable(t, blocks, b)
    ensures
      var item, rest := DiffItem(blocks, b), ItemsBits(t.Ac(b.comp), AcItems(b.c, 1));
      && |BlockBits(t, blocks, b)| == |ItemBits(t.Dc(b.comp), item)| + |rest|
      && ItemAhead(t.Dc(b.comp), item, u, at)
      && ItemsAhead(t.Ac(b.comp), b.c, 1, u, at + |ItemBits(t.Dc(b.comp), item)|)
  {
    hide ValidTable, ItemBits, ItemsBits, AcItems, DiffItem, Ahead, BlockBits, Codable, AllCodable;
    var first, rest := ItemBits(t.Dc(b.comp), DiffItem(blocks, b)), ItemsBits(t.Ac(b.comp), AcItems(b.c, 1));
    BlockBitsAt(t, blocks, b);
    AheadSplit(u, at, first, rest);
  }

  /** The scan goes on with the bits of block i after those of the blocks before it. */
  lemma {:induction false} BlockInScan(t: Tables, blocks: seq<Block>, i: nat) returns (rest: BitString)
    requires t.Valid() && ValidScan(blocks) && i < |blocks|
    ensures ValidScan(blocks[..i]) && ValidBlock(blocks[i].c)
    ensures ScanBits(t, blocks) == ScanBits(t, blocks[..i]) + (BlockBits(t, blocks[..i], blocks[i]) + rest)
    decreases |blocks|
  {
    hide ValidTable, BlockBits;
    var front, last := blocks[..|blocks| - 1], blocks[|blocks| - 1];
    if i == |front| {
      rest := [];
      assert BlockBits(t, front, last) + [] == BlockBits(t, front, last);
    } else {
      var r := BlockInScan(t, front, i);
      assert front[..i] == blocks[..i];
      rest := r + BlockBits(t, front, last);
      var a, b, c := ScanBits(t, blocks[..i]), BlockBits(t, blocks[..i], blocks[i]), BlockBits(t, front, last);
      assert a + (b + r) + c == a + (b + (r + c));
    }
  }

  /** Block i lies ahead of a decoder that has done the blocks before. */
  lemma NextInScan(t: Tables, blocks: seq<Block>, i: nat, start: nat, bp: nat, last_dc_val: seq<int>, u: seq<Byte>)
    requires t.Valid() && ValidScan(blocks) && ScanCodable(t, blocks) && i < |blocks|
    requires InScan(t, blocks, i, start, bp, last_dc_val) && ScanAhead(t, blocks, u, start)
    ensures BlockAhead(t, blocks[..i], blocks[i], u, bp)
    ensures last_dc_val[blocks[i].comp] == LastDc(blocks[..i], blocks[i].comp)
    ensures InScan(t, blocks, i + 1, start, bp + |BlockBits(t, blocks[..i], blocks[i])|,
                   last_dc_val[blocks[i].comp := blocks[i].c[0]])
  {
    hide ValidTable, BlockBits, Ahead, ScanBits, LastDc, Codable, AllCodable;
    var before, b := blocks[..i], blocks[i];
    var rest := BlockInScan(t, blocks, i);
    assert BlockCodable(t, before, b);
    var x, y := ScanBits(t, before), BlockBits(t, before, b);
    AheadSplit(u, start, x, y + rest);
    AheadSplit(u, start + |x|, y, rest);
    AfterBlock(t, blocks, i);
  }

  lemma LastDcPush(blocks: seq<Block>, b: Block, comp: nat)
    requires b.c != []
    ensures LastDc(blocks + [b], comp) == if comp == b.comp then b.c[0] else LastDc(blocks, comp)
  {
    assert (blocks + [b])[..|blocks|] == blocks;
  }

  lemma AfterBlock(t: Tables, blocks: seq<Block>, i: nat)
    requires t.Valid() && ValidScan(blocks) && i < |blocks|
    ensures ValidScan(blocks[..i]) && ValidScan(blocks[..i + 1]) && ValidBlock(blocks[i].c)
    ensures ScanBits(t, blocks[..i + 1]) == ScanBits(t, blocks[..i]) + BlockBits(t, blocks[..i], blocks[i])
    ensures forall comp: nat ::
      LastDc(blocks[..i + 1], comp) == (if comp == blocks[i].comp then blocks[i].c[0] else LastDc(blocks[..i], comp))
  {
    hide ValidTable, BlockBits;
    var upTo := blocks[..i + 1];
    assert upTo[..|upTo| - 1] == blocks[..i] && upTo[|upTo| - 1] == blocks[i];
    forall comp: nat
      ensures LastDc(upTo, comp) == (if comp == blocks[i].comp then blocks[i].c[0] else LastDc(blocks[..i], comp))
    {
      LastDcPush(blocks[..i], blocks[i], comp);
      assert upTo == blocks[..i] + [blocks[i]];
    }
  }

  lemma SlotIndex(m: nat, slot: nat, n: nat, mcus: nat)
    requires m < mcus
    ensures (m + 1) * n == m * n + n
    ensures slot < n ==> m * n + slot < mcus * n && (m * n + slot) % n == slot
  {
    if slot < n {
      DivUnique(m * n + slot, n, m, slot);
      MulMonotone(m + 1, mcus, n);
    }
  }

  lemma SlotsInMemory(d: JpegDecoder, t: Tables)
    requires d.Valid(t)
    ensures t.Valid() && |d.last_dc_val| >= 3 && d.coefficients.Length == 64 * d.max_zag.Length
  {
  }

  lemma NothingRecovered(blocks: seq<Block>, q: seq<seq<int>>)
    requires |q| == 3 && ValidScan(blocks)
    ensures AllRecovered([], blocks, q) && ValidScan(blocks[..0])
  {
  }

  lemma OneMoreRecovered(decoded: seq<seq<int>>, p: seq<int>, base: nat, blocks: seq<Block>, q: seq<seq<int>>)
    requires |q| == 3 && ValidScan(blocks) && AllRecovered(decoded, blocks, q) && |decoded| < |blocks| && base + 64 <= |p|
    requires var b := blocks[|decoded|]; Recovered(p, base, b.c, q[b.comp])
    ensures AllRecovered(decoded + [p[base..base + 64]], blocks, q)
  {
    hide Zag, Cast16;
    var b := blocks[|decoded|];
    assert Recovered(p[base..base + 64], 0, b.c, q[b.comp]);
  }

  lemma ScanStart(t: Tables, blocks: seq<Block>)
    requires t.Valid() && ValidScan(blocks)
    ensures ScanBits(t, blocks[..0]) == [] && forall comp: nat :: LastDc(blocks[..0], comp) == 0
  {
  }

  // ---- The round trip ----

  /** The bits in whole bytes, with ones in the last one; what is left in the bit buffer is ones only. */
  ghost predicate FilledWithOnes(plain: seq<Byte>, bits: BitString) {
    && |plain| == (|bits| + 7) / 8
    && BitsOf(plain)[..|bits|] == bits && (forall i :: |bits| <= i < 8 * |plain| ==> BitsOf(plain)[i])
  }

  /** terminate_pass_two: seven ones, then the end marker. */
  method TerminatePassTwo(w: BitPutter) returns (data: seq<Byte>)
    requires w.Valid()
    modifies w
    ensures data == Stuff(w.plain) + [255, 217] && FilledWithOnes(w.plain, old(w.Written()))
  {
    hide CodeBits, BitsOf, HoldsBits;
    ghost var before := w.Written();
    SevenOnes();
    w.PutBits(0x7F, 7);
    assert w.Written() == BitsOf(w.plain) + w.pending;
    assert before == (before + CodeBits(0x7F, 7))[..|before|] == (BitsOf(w.plain) + w.pending)[..|before|];
    forall i | |before| <= i < 8 * |w.plain| ensures BitsOf(w.plain)[i] {
      assert (before + CodeBits(0x7F, 7))[i] == CodeBits(0x7F, 7)[i - |before|];
    }
    data := w.out + [255, 217];
  }

  lemma SevenOnes()
    ensures 0x7F < Pow2(7) && forall i :: 0 <= i < 7 ==> CodeBits(0x7F, 7)[i]
  {
    assert CodeBits(0x7F, 7) == [true, true, true, true, true, true, true];
  }

  /** A scan that was written lies ahead of a reader of its data. */
  lemma WrittenScanAhead(t: Tables, blocks: seq<Block>, plain: seq<Byte>)
    requires t.Valid() && ValidScan(blocks) && FilledWithOnes(plain, ScanBits(t, blocks))
    ensures ScanAhead(t, blocks, plain, 0)
    ensures Feeds(Stuff(plain) + [255, 217], 0, plain, 0)
  {
    hide ScanBits, BitsOf, ValidTable, Ahead;
    AheadIsBits(plain, 0, |ScanBits(t, blocks)|);
    assert BitsOf(plain)[0..|ScanBits(t, blocks)|] == BitsOf(plain)[..|ScanBits(t, blocks)|];
    assert plain[0..] == plain;
    var data := Stuff(plain) + [255, 217];
    assert data[0..0 + |Stuff(plain)|] == Stuff(plain) && data[0 + |Stuff(plain)|..] == [255, 217];
  }

  /** Pass two over all blocks, with tables that code them. */
  method EncodeScan(e: JpegEncoder, blocks: seq<Block>, ghost t: Tables, codes: seq<seq<nat>>, sizes: seq<seq<nat>>)
    returns (data: seq<Byte>, ghost plain: seq<Byte>)
    requires t.Valid() && e.Shape() && e.w.Valid() && e.w.Written() == []
    requires ValidScan(blocks) && ScanCodable(t, blocks) && EncoderTables(codes, sizes, t)
    modifies e`last_dc_val, e`pass_num, e`blocks, e.w
    ensures data == Stuff(plain) + [255, 217] && FilledWithOnes(plain, ScanBits(t, blocks))
  {
    hide ValidTable, BitPutter.Valid, BitPutter.Written, Codable, AllCodable, EncoderTable, ScanBits, ValidBlock, LastDc, AcItems,
         DiffItem;
    e.SecondPassInit(t);
    for i := 0 to |blocks|
      invariant e.Writing(t) && e.blocks == blocks[..i]
    {
      assert BlockCodable(t, blocks[..i], blocks[i]);
      e.WriteBlock(blocks[i], codes, sizes, t);
      assert blocks[..i] + [blocks[i]] == blocks[..i + 1];
    }
    assert blocks[..|blocks|] == blocks;
    data := TerminatePassTwo(e.w);
    plain := e.w.plain;
  }

  /** Pass one over all blocks: the counts of every symbol that pass two will write. */
  method CountScan(e: JpegEncoder, blocks: seq<Block>)
    requires e.Counting() && e.blocks == [] && ValidScan(blocks)
    modifies e`last_dc_val, e`blocks, e.dc_count0, e.ac_count0, e.dc_count1, e.ac_count1
    ensures e.Counting() && e.blocks == blocks
  {
    hide TableCounts, ValidBlock, LastDc;
    for i := 0 to |blocks|
      invariant e.Counting() && e.blocks == blocks[..i]
    {
      e.CountBlock(blocks[i]);
      assert blocks[..i] + [blocks[i]] == blocks[..i + 1];
    }
    assert blocks[..|blocks|] == blocks;
  }
}
