/**
 * A scan of T.81 given byte by byte, with the coefficients it stands for: tables, predictions, runs, extra bits, byte stuffing,
 * zigzag order and dequantization (compositor/jpgd.cpp:1757-1854, 2229-2345).
 */
module JpegStandard {
  import opened Bits
  import opened PrefixCode
  import opened Canonical
  import opened PixelBits
  import opened JpegBits
  import opened JpegReader
  import opened JpegTables
  import opened JpegTreeSize
  import opened JpegLookup
  import opened JpegDecode
  import opened JpegBlocks
  import opened JpegZigzag
  import opened JpegBlockDecode
  import opened JpegScan
  import opened JpegRoundTrip

  // ---- The tables ----

  const DC0: TableSpec := TableSpec([0, 1, 1, 1, 0, 0, 0, 0, 0, 0, 0, 0, 0, 0, 0, 0, 0], [0, 3, 2])
  const AC0: TableSpec := TableSpec([0, 0, 3, 1, 0, 0, 0, 0, 0, 0, 0, 0, 0, 0, 0, 0, 0], [0x00, 0x11, 0xF0, 0x28])
  const DC1: TableSpec := TableSpec([0, 1, 1, 0, 0, 0, 0, 0, 0, 0, 0, 0, 0, 0, 0, 0, 0], [0, 2])
  const AC1: TableSpec := TableSpec([0, 1, 0, 0, 0, 0, 0, 0, 0, 0, 0, 0, 0, 0, 0, 0, 0], [0x00])
  const TABLES: Tables := Tables(DC0, AC0, DC1, AC1)

  lemma {:induction false} NoLonger(bits: seq<Byte>, l: nat)
    requires |bits| == 17 && 3 <= l <= 16 && forall i :: 4 <= i < 17 ==> bits[i] == 0
    ensures SizesTo(bits, l) == SizesTo(bits, 3)
  {
    if l > 3 { NoLonger(bits, l - 1); }
  }

  lemma ShortSizes(bits: seq<Byte>)
    requires |bits| == 17 && forall i :: 4 <= i < 17 ==> bits[i] == 0
    ensures Sizes(bits) == Copies(1, bits[1]) + Copies(2, bits[2]) + Copies(3, bits[3])
  {
    NoLonger(bits, 16);
    assert SizesTo(bits, 1) == Copies(1, bits[1]);
  }

  /** A table without long codes is taken by the decoder. */
  lemma ShortTable(t: TableSpec, sizes: seq<nat>)
    requires |t.bits| == 17 && Sizes(t.bits) == sizes && |t.val| == |sizes| <= 4 && Distinct(t.val)
    requires forall i :: 0 <= i < |sizes| ==> 1 <= sizes[i] <= 3
    requires Parts(sizes) <= 8
    ensures ValidTable(t) && |Inner(Codes(sizes))| <= 256
  {
    hide Codes, Sizes, KraftTo, Parts, Pow2, Inner;
    KraftIsParts(sizes, |sizes|);
    assert sizes[..|sizes|] == sizes;
    NothingDeep(Codes(sizes));
  }

  lemma NothingDeep(all: seq<BitString>)
    requires forall p :: 0 <= p < |all| ==> |all[p]| < 8
    ensures |Inner(all)| == 0
  {
    assert Inner(all) == {};
  }

  /** The code space that the lengths take, in eighths. */
  function Parts(sizes: seq<nat>): nat {
    if sizes == [] then 0 else
      var l := sizes[|sizes| - 1];
      Parts(sizes[..|sizes| - 1]) + if l == 1 then 4 else if l == 2 then 2 else 1
  }

  lemma {:induction false} KraftIsParts(sizes: seq<nat>, n: nat)
    requires n <= |sizes| && forall i :: 0 <= i < |sizes| ==> 1 <= sizes[i] <= 3
    ensures Pow2(16) == 65536 && KraftTo(sizes, 16, 16, n) == Parts(sizes[..n]) * 8192
  {
    hide Pow2, Parts;
    Pow2Small();
    Pow2Add(8, 8);
    PartsStep(sizes, n);
    if n > 0 { KraftIsParts(sizes, n - 1); }
  }

  lemma PartsStep(sizes: seq<nat>, n: nat)
    requires n <= |sizes|
    ensures Parts(sizes[..n]) == if n == 0 then 0 else
      Parts(sizes[..n - 1]) + if sizes[n - 1] == 1 then 4 else if sizes[n - 1] == 2 then 2 else 1
  {
    if n > 0 { assert sizes[..n][..n - 1] == sizes[..n - 1]; }
  }

  lemma CodeOfSymbol(t: TableSpec, p: nat, sizes: seq<nat>, number: nat)
    requires ValidTable(t) && sizes == Sizes(t.bits) && p < |t.val| == |sizes| && number == CodeNumber(sizes, p)
    ensures SymbolCode(t, t.val[p]) == CodeBits(number, sizes[p])
  {
    hide ValidTable, SymbolCode, CodeNumber, Sizes, CodeBits;
    SymbolCodeAt(t, p);
    CodeAt(sizes, p);
  }

  lemma Counts(sizes: seq<nat>, n: nat, l: nat)
    requires n <= |sizes|
    ensures CountUpTo(sizes, l, n) == if n == 0 then 0 else CountUpTo(sizes, l, n - 1) + if sizes[n - 1] == l then 1 else 0
  {
  }

  /** The first codes of one, two and three bits. */
  lemma Firsts(sizes: seq<nat>)
    requires CountUpTo(sizes, 0, |sizes|) == 0
    ensures FirstCode(sizes, 1) == 0 && FirstCode(sizes, 2) == 2 * CountUpTo(sizes, 1, |sizes|)
    ensures FirstCode(sizes, 3) == 2 * (FirstCode(sizes, 2) + CountUpTo(sizes, 2, |sizes|))
  {
    hide CountUpTo;
    assert FirstCode(sizes, 0) == 0;
  }

  lemma Numbers123()
    ensures CodeNumber([1, 2, 3], 0) == 0 && CodeNumber([1, 2, 3], 1) == 2 && CodeNumber([1, 2, 3], 2) == 6
  {
    hide FirstCode;
    Firsts([1, 2, 3]);
  }

  lemma Numbers2223()
    ensures CodeNumber([2, 2, 2, 3], 0) == 0 && CodeNumber([2, 2, 2, 3], 1) == 1
    ensures CodeNumber([2, 2, 2, 3], 2) == 2 && CodeNumber([2, 2, 2, 3], 3) == 6
  {
    hide FirstCode;
    Firsts([2, 2, 2, 3]);
  }

  lemma Numbers12()
    ensures CodeNumber([1, 2], 0) == 0 && CodeNumber([1, 2], 1) == 2 && CodeNumber([1], 0) == 0
  {
    hide FirstCode;
    Firsts([1, 2]);
    Firsts([1]);
  }

  lemma Spaces()
    ensures Parts([1, 2, 3]) == 7 && Parts([2, 2, 2, 3]) == 7 && Parts([1, 2]) == 6 && Parts([1]) == 4
  {
    assert [1, 2, 3][..2] == [1, 2] && [1, 2][..1] == [1] && [1][..0] == [];
    assert [2, 2, 2, 3][..3] == [2, 2, 2] && [2, 2, 2][..2] == [2, 2] && [2, 2][..1] == [2] && [2][..0] == [];
  }

  lemma ListOfSizes(bits: seq<Byte>, sizes: seq<nat>)
    requires |bits| == 17 && forall i :: 4 <= i < 17 ==> bits[i] == 0
    requires |sizes| == (bits[1] as nat) + (bits[2] as nat) + (bits[3] as nat)
    requires forall i :: 0 <= i < |sizes| ==> sizes[i] == if i < bits[1] then 1 else if i < (bits[1] as nat) + (bits[2] as nat) then 2 else 3
    ensures Sizes(bits) == sizes
  {
    hide Sizes, Copies;
    ShortSizes(bits);
  }

  /** 0, 10 and 110 for the differences of no, three and two bits. */
  lemma Dc0Codes()
    ensures ValidTable(DC0) && |Inner(Codes(Sizes(DC0.bits)))| <= 256
    ensures SymbolCode(DC0, 0) == CodeBits(0, 1) && SymbolCode(DC0, 3) == CodeBits(2, 2) && SymbolCode(DC0, 2) == CodeBits(6, 3)
  {
    hide ValidTable, SymbolCode, Codes, CodeBits, SizesTo, Sizes, CodeNumber, Inner, Parts;
    var sizes := [1, 2, 3];
    ListOfSizes(DC0.bits, sizes);
    Spaces();
    ShortTable(DC0, sizes);
    Numbers123();
    CodeOfSymbol(DC0, 0, sizes, 0);
    CodeOfSymbol(DC0, 1, sizes, 2);
    CodeOfSymbol(DC0, 2, sizes, 6);
  }

  /** 00, 01, 10 and 110 for the end of the block, a run of one, sixteen zeros, and eight bits behind two zeros. */
  lemma Ac0Codes()
    ensures ValidTable(AC0) && |Inner(Codes(Sizes(AC0.bits)))| <= 256
    ensures SymbolCode(AC0, 0x00) == CodeBits(0, 2) && SymbolCode(AC0, 0x11) == CodeBits(1, 2)
    ensures SymbolCode(AC0, 0xF0) == CodeBits(2, 2) && SymbolCode(AC0, 0x28) == CodeBits(6, 3)
  {
    hide ValidTable, SymbolCode, Codes, CodeBits, SizesTo, Sizes, CodeNumber, Inner, Parts;
    var sizes := [2, 2, 2, 3];
    ListOfSizes(AC0.bits, sizes);
    Spaces();
    ShortTable(AC0, sizes);
    Numbers2223();
    CodeOfSymbol(AC0, 0, sizes, 0);
    CodeOfSymbol(AC0, 1, sizes, 1);
    CodeOfSymbol(AC0, 2, sizes, 2);
    CodeOfSymbol(AC0, 3, sizes, 6);
  }

  lemma Dc1Codes()
    ensures ValidTable(DC1) && |Inner(Codes(Sizes(DC1.bits)))| <= 256
    ensures SymbolCode(DC1, 0) == CodeBits(0, 1) && SymbolCode(DC1, 2) == CodeBits(2, 2)
  {
    hide ValidTable, SymbolCode, Codes, CodeBits, SizesTo, Sizes, CodeNumber, Inner, Parts;
    var sizes := [1, 2];
    ListOfSizes(DC1.bits, sizes);
    Spaces();
    ShortTable(DC1, sizes);
    Numbers12();
    CodeOfSymbol(DC1, 0, sizes, 0);
    CodeOfSymbol(DC1, 1, sizes, 2);
  }

  lemma Ac1Codes()
    ensures ValidTable(AC1) && |Inner(Codes(Sizes(AC1.bits)))| <= 256 && SymbolCode(AC1, 0) == CodeBits(0, 1)
  {
    hide ValidTable, SymbolCode, Codes, CodeBits, SizesTo, Sizes, CodeNumber, Inner, Parts;
    var sizes := [1];
    ListOfSizes(AC1.bits, sizes);
    Spaces();
    ShortTable(AC1, sizes);
    Numbers12();
    CodeOfSymbol(AC1, 0, sizes, 0);
  }

  // ---- The blocks ----

  /** Of the first component: 5, then 255 behind two zeros, then 1 behind seventeen. */
  function First(): (c: seq<int>)
    ensures ValidBlock(c)
  {
    seq(64, i => if i == 0 then 5 else if i == 3 then 255 else if i == 21 then 1 else 0)
  }

  /** Only a first coefficient. */
  function Flat(dc: int): (c: seq<int>)
    ensures |c| == 64 && (-100 < dc < 100 ==> ValidBlock(c))
  {
    seq(64, i => if i == 0 then dc else 0)
  }

  function Blocks(): seq<Block> { [Block(0, First()), Block(1, Flat(-3)), Block(0, Flat(2)), Block(1, Flat(-3))] }

  lemma SmallLengths()
    ensures BitLength(0) == 0 && BitLength(1) == 1 && BitLength(3) == 2 && BitLength(5) == 3 && BitLength(255) == 8
    ensures ExtraBits(0) == 0 && ExtraBits(1) == 1 && ExtraBits(-3) == 0 && ExtraBits(5) == 5 && ExtraBits(255) == 255
  {
    assert BitLength(7) == 3 && BitLength(31) == 5;
    assert Pow2(2) == 4;
  }

  lemma FlatItems(dc: int)
    ensures AcItems(Flat(dc), 1) == [END_OF_BLOCK]
  {
    AcItemsOf(Flat(dc), 64, 63);
  }

  lemma FirstItems()
    ensures AcItems(First(), 1) == [Item(0x28, 8, 255), Item(0xF0, 0, 0), Item(0x11, 1, 1), Item(0x00, 0, 0)]
  {
    hide BitLength, ExtraBits, AcItems;
    var c := First();
    SmallLengths();
    AcItemsOf(c, 3, 2);
    AcItemsOf(c, 21, 17);
    AcItemsOf(c, 21, 1);
    AcItemsOf(c, 64, 42);
  }

  lemma Differences()
    ensures
      var b := Blocks();
      && DiffItem([], b[0]) == Item(3, 3, 5) && DiffItem(b[..1], b[1]) == Item(2, 2, 0)
      && DiffItem(b[..2], b[2]) == Item(2, 2, 0) && DiffItem(b[..3], b[3]) == Item(0, 0, 0)
  {
    hide BitLength, ExtraBits, First, Flat;
    var b := Blocks();
    SmallLengths();
    Heads();
    assert b[..3][..2] == b[..2] && b[..2][..1] == b[..1] && b[..1][..0] == [];
    assert LastDc([], 0) == 0 && LastDc(b[..1], 0) == 5 && LastDc(b[..2], 0) == 5;
    assert LastDc([], 1) == 0 && LastDc(b[..1], 1) == 0 && LastDc(b[..2], 1) == -3 && LastDc(b[..3], 1) == -3;
  }

  lemma Heads()
    ensures |First()| == 64 && First()[0] == 5 && forall dc :: |Flat(dc)| == 64 && Flat(dc)[0] == dc
  {
  }

  // ---- Their bits ----

  /** A number with two fields, the first one on top. */
  lemma {:induction false} Join(v: nat, n: nat, hi: nat, lo: nat, k: nat, p: nat)
    requires k <= n && p == Pow2(k) && lo < p && v == hi * p + lo
    ensures CodeBits(v, n) == CodeBits(hi, n - k) + CodeBits(lo, k)
  {
    if k > 0 {
      Halves(v, hi, lo, p / 2);
      Join(v / 2, n - 1, hi, lo / 2, k - 1, p / 2);
    }
  }

  lemma Halves(v: nat, hi: nat, lo: nat, p: nat)
    requires v == hi * (2 * p) + lo
    ensures v / 2 == hi * p + lo / 2 && v % 2 == lo % 2
  {
    assert v == 2 * (hi * p) + lo;
  }

  /** One item after the other. */
  lemma ItemFirst(t: TableSpec, items: seq<Item>, code: BitString, rest: BitString)
    requires ValidTable(t) && items != [] && code == SymbolCode(t, items[0].symbol) && rest == ItemsBits(t, items[1..])
    ensures ItemsBits(t, items) == code + CodeBits(items[0].value, items[0].nbits) + rest
  {
    hide ValidTable, SymbolCode, CodeBits;
  }

  lemma NoMoreItems(t: TableSpec)
    requires ValidTable(t)
    ensures ItemsBits(t, []) == [] && CodeBits(0, 0) == []
  {
  }

  /** 110 11111111, 10, 01 1, 00. */
  lemma FirstAcBits()
    ensures ValidTable(AC0) && AllCodable(AC0, AcItems(First(), 1))
    ensures ItemsBits(AC0, AcItems(First(), 1)) == CodeBits(229324, 18)
  {
    hide ValidTable, SymbolCode, CodeBits, AcItems, Pow2, ItemsBits, Codes, Inner, Sizes;
    Ac0Codes();
    FirstItems();
    NoMoreItems(AC0);
    Pow2Small();
    var items := AcItems(First(), 1);
    var i1, i2, i3 := items[1..], items[2..], items[3..];
    assert i1[1..] == i2 && i2[1..] == i3 && i3[1..] == [];
    ItemFirst(AC0, i3, CodeBits(0, 2), []);
    ItemFirst(AC0, i2, CodeBits(1, 2), ItemsBits(AC0, i3));
    ItemFirst(AC0, i1, CodeBits(2, 2), ItemsBits(AC0, i2));
    ItemFirst(AC0, items, CodeBits(6, 3), ItemsBits(AC0, i1));
    Join(229324, 18, 1791, 76, 7, 128);
    Join(1791, 11, 6, 255, 8, 256);
    Join(76, 7, 2, 12, 5, 32);
    Join(12, 5, 3, 0, 2, 4);
    Join(3, 3, 1, 1, 1, 2);
  }

  lemma FlatAcBits(dc: int)
    ensures ValidTable(AC0) && AllCodable(AC0, AcItems(Flat(dc), 1)) && ItemsBits(AC0, AcItems(Flat(dc), 1)) == CodeBits(0, 2)
    ensures ValidTable(AC1) && AllCodable(AC1, AcItems(Flat(dc), 1)) && ItemsBits(AC1, AcItems(Flat(dc), 1)) == CodeBits(0, 1)
  {
    hide ValidTable, SymbolCode, CodeBits, AcItems, ItemsBits, Codes, Inner, Sizes;
    Ac0Codes();
    Ac1Codes();
    FlatItems(dc);
    NoMoreItems(AC0);
    NoMoreItems(AC1);
    var items := [END_OF_BLOCK];
    assert items[1..] == [];
    ItemFirst(AC0, items, CodeBits(0, 2), []);
    ItemFirst(AC1, items, CodeBits(0, 1), []);
  }

  lemma ItemBitsAre(t: TableSpec, item: Item, code: BitString)
    requires ValidTable(t) && code == SymbolCode(t, item.symbol)
    ensures ItemBits(t, item) == code + CodeBits(item.value, item.nbits)
  {
  }

  lemma TablesValid()
    ensures TABLES.Valid() && TreesFit(TABLES) && ValidScan(Blocks())
  {
    hide ValidTable, SymbolCode, Codes, CodeBits, Sizes, Inner, First, Flat, ValidBlock;
    Dc0Codes();
    Ac0Codes();
    Dc1Codes();
    Ac1Codes();
  }

  /** 10 101, then the coefficients. */
  lemma FirstBlockBits()
    ensures TABLES.Valid() && ValidScan(Blocks()) && BlockCodable(TABLES, [], Blocks()[0])
    ensures BlockBits(TABLES, [], Blocks()[0]) == CodeBits(5734348, 23)
  {
    hide ValidTable, SymbolCode, CodeBits, AcItems, Pow2, ItemsBits, ItemBits, First, Flat, DiffItem, Codes, Inner, Sizes, ValidBlock, AllCodable;
    TablesValid();
    Dc0Codes();
    Differences();
    FirstAcBits();
    Pow2Small();
    ItemBitsAre(DC0, Item(3, 3, 5), CodeBits(2, 2));
    Pow2Add(9, 9);
    Join(5734348, 23, 21, 229324, 18, 262144);
    Join(21, 5, 2, 5, 3, 8);
  }

  /** 10 00, then the end; of the other component. */
  lemma SecondBlockBits()
    ensures TABLES.Valid() && ValidScan(Blocks()) && BlockCodable(TABLES, Blocks()[..1], Blocks()[1])
    ensures BlockBits(TABLES, Blocks()[..1], Blocks()[1]) == CodeBits(16, 5)
  {
    hide ValidTable, SymbolCode, CodeBits, AcItems, Pow2, ItemsBits, ItemBits, First, Flat, DiffItem, Codes, Inner, Sizes, ValidBlock, AllCodable;
    TablesValid();
    Dc1Codes();
    Differences();
    FlatAcBits(-3);
    Pow2Small();
    ItemBitsAre(DC1, Item(2, 2, 0), CodeBits(2, 2));
    Join(16, 5, 8, 0, 1, 2);
    Join(8, 4, 2, 0, 2, 4);
  }

  /** 110 00, then the end. */
  lemma ThirdBlockBits()
    ensures TABLES.Valid() && ValidScan(Blocks()) && BlockCodable(TABLES, Blocks()[..2], Blocks()[2])
    ensures BlockBits(TABLES, Blocks()[..2], Blocks()[2]) == CodeBits(96, 7)
  {
    hide ValidTable, SymbolCode, CodeBits, AcItems, Pow2, ItemsBits, ItemBits, First, Flat, DiffItem, Codes, Inner, Sizes, ValidBlock, AllCodable;
    TablesValid();
    Dc0Codes();
    Differences();
    FlatAcBits(2);
    Pow2Small();
    ItemBitsAre(DC0, Item(2, 2, 0), CodeBits(6, 3));
    Join(96, 7, 24, 0, 2, 4);
    Join(24, 5, 6, 0, 2, 4);
  }

  /** 0, then the end. */
  lemma FourthBlockBits()
    ensures TABLES.Valid() && ValidScan(Blocks()) && BlockCodable(TABLES, Blocks()[..3], Blocks()[3])
    ensures BlockBits(TABLES, Blocks()[..3], Blocks()[3]) == CodeBits(0, 2)
  {
    hide ValidTable, SymbolCode, CodeBits, AcItems, Pow2, ItemsBits, ItemBits, First, Flat, DiffItem, Codes, Inner, Sizes, ValidBlock, AllCodable;
    TablesValid();
    Dc1Codes();
    Differences();
    FlatAcBits(-3);
    Pow2Small();
    NoMoreItems(DC1);
    ItemBitsAre(DC1, Item(0, 0, 0), CodeBits(0, 1));
    Join(0, 2, 0, 0, 1, 2);
  }

  lemma ScanPush(blocks: seq<Block>, b: Block, all: seq<Block>)
    requires TABLES.Valid() && ValidScan(all) && all == blocks + [b]
    ensures ValidScan(blocks) && ValidBlock(b.c) && ScanBits(TABLES, all) == ScanBits(TABLES, blocks) + BlockBits(TABLES, blocks, b)
  {
    hide BlockBits, ValidTable, ValidBlock;
    assert all[..|all| - 1] == blocks && all[|all| - 1] == b;
    assert forall i :: 0 <= i < |blocks| ==> all[i] == blocks[i];
  }

  lemma FourBlocks()
    ensures
      var b := Blocks();
      |b| == 4 && b[..0] == [] && b[..1] == [] + [b[0]] && b[..2] == b[..1] + [b[1]] && b[..3] == b[..2] + [b[2]] && b == b[..3] + [b[3]]
    ensures ValidScan(Blocks()) && forall i :: 0 <= i < 4 ==> ValidScan(Blocks()[..i])
  {
    hide Blocks, ValidScan;
    TablesValid();
    Components();
    Fronts(Blocks());
  }

  lemma Fronts(b: seq<Block>)
    requires |b| == 4 && ValidScan(b)
    ensures forall i :: 0 <= i < 4 ==> ValidScan(b[..i])
    ensures b[..0] == [] && b[..1] == [] + [b[0]] && b[..2] == b[..1] + [b[1]] && b[..3] == b[..2] + [b[2]] && b == b[..3] + [b[3]]
  {
    hide ValidBlock;
  }

  lemma ScanIsCodable()
    ensures TABLES.Valid() && ValidScan(Blocks()) && ScanCodable(TABLES, Blocks())
  {
    hide ValidTable, BlockBits, BlockCodable, Blocks, ValidBlock, Codable, AllCodable;
    FourBlocks();
    FirstBlockBits();
    SecondBlockBits();
    ThirdBlockBits();
    FourthBlockBits();
    forall i | 0 <= i < 4 ensures BlockCodable(TABLES, Blocks()[..i], Blocks()[i]) {
      if i == 0 { } else if i == 1 { } else if i == 2 { }
    }
  }

  /** All bits of the scan. */
  lemma AllBits()
    ensures TABLES.Valid() && ValidScan(Blocks()) && ScanBits(TABLES, Blocks()) == CodeBits(93951566208, 37)
  {
    hide ValidTable, CodeBits, Pow2, BlockBits, ScanBits, BlockCodable, Blocks, ValidBlock, ValidScan;
    FourBlocks();
    FirstBlockBits();
    SecondBlockBits();
    ThirdBlockBits();
    FourthBlockBits();
    var b := Blocks();
    ScanPush([], b[0], b[..1]);
    ScanPush(b[..1], b[1], b[..2]);
    ScanPush(b[..2], b[2], b[..3]);
    ScanPush(b[..3], b[3], b);
    NoBits();
    JoinBlocks();
  }

  lemma JoinBlocks()
    ensures CodeBits(93951566208, 37) == [] + CodeBits(5734348, 23) + CodeBits(16, 5) + CodeBits(96, 7) + CodeBits(0, 2)
  {
    hide CodeBits, Pow2;
    Pow2Small();
    Join(93951566208, 37, 23487891552, 0, 2, 4);
    Join(23487891552, 35, 183499152, 96, 7, 128);
    Join(183499152, 28, 5734348, 16, 5, 32);
  }

  lemma NoBits()
    ensures TABLES.Valid() && ScanBits(TABLES, []) == []
  {
    hide ValidTable;
    TablesValid();
  }

  // ---- The bytes ----

  /** Without the zero byte behind 0xFF; ones fill the last byte. */
  const PLAIN: seq<Byte> := [0xAE, 0xFF, 0x99, 0x0C, 0x07]

  const DATA: seq<Byte> := [0xAE, 0xFF, 0x00, 0x99, 0x0C, 0x07, 0xFF, 0xD9]

  lemma NextOctet(u: seq<Byte>, c: Byte, next: seq<Byte>, v: nat, n: nat, all: nat)
    requires BitsOf(u) == CodeBits(v, n) && all == v * 256 + c && next == u + [c]
    ensures BitsOf(next) == CodeBits(all, n + 8)
  {
    hide BitsOf, CodeBits, Pow2;
    Pow2Small();
    BitsOfPush(u, c);
    Join(all, n + 8, v, c, 8, 256);
  }

  lemma PlainBits()
    ensures BitsOf(PLAIN) == CodeBits(0xAEFF990C07, 40)
  {
    hide BitsOf, CodeBits;
    NoOctets();
    NextOctet([], 0xAE, [0xAE], 0, 0, 0xAE);
    NextOctet([0xAE], 0xFF, [0xAE, 0xFF], 0xAE, 8, 0xAEFF);
    NextOctet([0xAE, 0xFF], 0x99, [0xAE, 0xFF, 0x99], 0xAEFF, 16, 0xAEFF99);
    NextOctet([0xAE, 0xFF, 0x99], 0x0C, [0xAE, 0xFF, 0x99, 0x0C], 0xAEFF99, 24, 0xAEFF990C);
    NextOctet([0xAE, 0xFF, 0x99, 0x0C], 0x07, PLAIN, 0xAEFF990C, 32, 0xAEFF990C07);
  }

  lemma NoOctets()
    ensures BitsOf([]) == [] && CodeBits(0, 0) == []
  {
  }

  lemma ScanIsPadded()
    ensures TABLES.Valid() && ValidScan(Blocks()) && FilledWithOnes(PLAIN, ScanBits(TABLES, Blocks()))
  {
    hide ValidTable, CodeBits, ScanBits, BitsOf, Pow2, Blocks, ValidBlock;
    AllBits();
    PlainBits();
    Pow2Small();
    Join(0xAEFF990C07, 40, 93951566208, 7, 3, 8);
    assert |BitsOf(PLAIN)| == 40;
    ThreeOnes();
  }

  lemma ThreeOnes()
    ensures forall i :: 0 <= i < 3 ==> CodeBits(7, 3)[i]
  {
    assert CodeBits(7, 3) == [true, true, true];
  }

  lemma ScanLiesAhead()
    ensures TABLES.Valid() && ValidScan(Blocks()) && ScanAhead(TABLES, Blocks(), PLAIN, 0) && Feeds(DATA, 0, PLAIN, 0)
  {
    hide ValidTable, Blocks, ValidBlock, Ahead, Feeds, FilledWithOnes;
    ScanIsPadded();
    WrittenScanAhead(TABLES, Blocks(), PLAIN);
    Stuffed();
  }

  lemma Stuffed()
    ensures Stuff(PLAIN) + [255, 217] == DATA
  {
    var u := PLAIN;
    assert u[1..] == [0xFF, 0x99, 0x0C, 0x07] && u[1..][1..] == [0x99, 0x0C, 0x07];
    assert [0x99, 0x0C, 0x07][1..] == [0x0C, 0x07] && [0x0C, 0x07][1..] == [0x07] && [0x07][1..] == [];
  }

  // ---- The encoder and the decoder ----

  /** There is one way to fill whole bytes. */
  lemma PaddedOnce(a: seq<Byte>, b: seq<Byte>, bits: BitString)
    requires FilledWithOnes(a, bits) && FilledWithOnes(b, bits)
    ensures a == b
  {
    hide BitsOf;
    assert BitsOf(a) == BitsOf(b);
    forall k | 0 <= k < |a| ensures a[k] == b[k] { OctetOf(a, k); OctetOf(b, k); }
  }

  /** A byte is the number that its bits spell. */
  lemma OctetOf(u: seq<Byte>, k: nat)
    requires k < |u|
    ensures u[k] == CodeValue(BitsOf(u)[8 * k..8 * k + 8])
  {
    hide BitsOf, CodeBits, CodeValue;
    Pow2Small();
    CodeValueOfCodeBits(u[k], 8);
    OctetBitsAre(u, k);
  }

  lemma OctetBitsAre(u: seq<Byte>, k: nat)
    requires k < |u|
    ensures BitsOf(u)[8 * k..8 * k + 8] == CodeBits(u[k], 8)
  {
    hide Bit;
    var s := BitsOf(u)[8 * k..8 * k + 8];
    forall i | 0 <= i < 8 ensures s[i] == CodeBits(u[k], 8)[i] { CodeBitsAt(u[k], 8, i); }
  }

  /** The encoder with these tables writes exactly those bytes. */
  method EncodeFourBlocks() returns (data: seq<Byte>)
    ensures data == [0xAE, 0xFF, 0x00, 0x99, 0x0C, 0x07, 0xFF, 0xD9]
  {
    hide ValidTable, ValidScan, ScanCodable, Blocks, FilledWithOnes, BitPutter.Valid, BitPutter.Written, EncoderTables, ScanBits;
    TablesValid();
    ScanIsCodable();
    ScanIsPadded();
    var e := new JpegEncoder();
    var codes, sizes := EncoderArrays(TABLES);
    ghost var plain;
    data, plain := EncodeScan(e, Blocks(), TABLES, codes, sizes);
    PaddedOnce(plain, PLAIN, ScanBits(TABLES, Blocks()));
    Stuffed();
  }

  /** Quantization by 1, 2, 3, ... in zigzag order. */
  function Steps(): (q: seq<int>)
    ensures |q| == 64
  {
    seq(64, k => k + 1)
  }

  /** A block in memory with entries 0, 16 and 48 only. */
  predicate OnlyThese(p: seq<int>, first: int, third: int, seventh: int) {
    |p| >= 64 && forall i :: 0 <= i < 64 ==> p[i] == if i == 0 then first else if i == 16 then third else if i == 48 then seventh else 0
  }

  /**
   * The scan AE FF 00 99 0C 07 FF D9 of two MCUs with a block of each component: 5 and 2 at the front of the first component's
   * blocks, with 255 * 4 in row 2 and 1 * 22 in row 6 of the first, and -3 twice for the other component.
   */
  method DecodeFourBlocks() returns (error: bool, decoded: seq<seq<int>>)
    ensures !error && |decoded| == 4
    ensures OnlyThese(decoded[0], 5, 4 * 255, 22 * 1) && OnlyThese(decoded[1], -3, 0, 0)
    ensures OnlyThese(decoded[2], 2, 0, 0) && OnlyThese(decoded[3], -3, 0, 0)
  {
    hide ValidTable, ValidScan, ScanCodable, ScanAhead, Feeds, Recovered, TreesFit, Steps, Blocks, OnlyThese;
    TablesValid();
    ScanIsCodable();
    ScanLiesAhead();
    Components();
    var q := [Steps(), Steps(), Steps()];
    error, decoded := Decode(TABLES, DATA, 2, [0, 1], q, Blocks(), PLAIN);
    AllRecoveredAre(decoded, q);
  }

  lemma Components()
    ensures |Blocks()| == 4 && forall i :: 0 <= i < 4 ==> Blocks()[i].comp == [0, 1][i % 2]
  {
    hide First, Flat;
  }

  lemma AllRecoveredAre(p: seq<seq<int>>, q: seq<seq<int>>)
    requires |p| == 4 == |Blocks()| && q == [Steps(), Steps(), Steps()]
    requires forall i :: 0 <= i < 4 ==> Blocks()[i].comp < 3 && Recovered(p[i], 0, Blocks()[i].c, q[Blocks()[i].comp])
    ensures OnlyThese(p[0], 5, 1020, 22) && OnlyThese(p[1], -3, 0, 0) && OnlyThese(p[2], 2, 0, 0) && OnlyThese(p[3], -3, 0, 0)
  {
    hide Recovered, Steps, First, Flat, OnlyThese;
    FirstRecovered(p[0]);
    FlatRecovered(p[1], -3);
    FlatRecovered(p[2], 2);
    FlatRecovered(p[3], -3);
  }

  lemma FirstRecovered(p: seq<int>)
    requires Recovered(p, 0, First(), Steps())
    ensures OnlyThese(p, 5, 1020, 22)
  {
    hide Zag, Place;
    Places();
    forall i: nat | i < 64 ensures p[i] == if i == 0 then 5 else if i == 16 then 1020 else if i == 48 then 22 else 0 {
      PlaceZag(i);
      assert p[0 + Zag(Place(i))] == Cast16(First()[Place(i)] * Steps()[Place(i)]);
      PlaceZag(0);
      PlaceZag(16);
      PlaceZag(48);
    }
  }

  lemma Places()
    ensures Place(0) == 0 && Place(16) == 3 && Place(48) == 21
  {
  }

  lemma FlatRecovered(p: seq<int>, dc: int)
    requires Recovered(p, 0, Flat(dc), Steps()) && -100 < dc < 100
    ensures OnlyThese(p, dc, 0, 0)
  {
    hide Zag, Place;
    Places();
    forall i: nat | i < 64 ensures p[i] == if i == 0 then dc else 0 {
      PlaceZag(i);
      assert p[0 + Zag(Place(i))] == Cast16(Flat(dc)[Place(i)] * Steps()[Place(i)]);
      PlaceZag(0);
    }
  }
}
