/**
 * Coding of one block of quantized coefficients (sections F.1.2 and F.2.2 of T.81): the two passes of the encoder
 * and the decoder's run/extend loop with its partial clearing (compositor/jpge.cpp:617-718, compositor/jpgd.cpp:563-569, 1757-1854).
 */
module JpegBlocks {
  import opened Bits
  import opened PrefixCode
  import opened Canonical
  import opened PixelBits
  import opened JpegBits
  import opened WordBits
  import opened JpegReader
  import opened JpegTables
  import opened JpegLookup
  import opened JpegDecode

  // ---- Numbers with a sign ----

  function Magnitude(v: int): nat { if v < 0 then -v else v }

  /** How many bits a number needs. */
  function BitLength(v: nat): nat { if v == 0 then 0 else 1 + BitLength(v / 2) }

  lemma {:induction false} BitLengthBounds(v: nat)
    ensures v < Pow2(BitLength(v)) && (v > 0 ==> Pow2(BitLength(v) - 1) <= v)
  {
    if v > 0 { BitLengthBounds(v / 2); }
  }

  lemma {:induction false} BitLengthAtMost(v: nat, n: nat)
    requires v < Pow2(n)
    ensures BitLength(v) <= n
  {
    if v > 0 { BitLengthAtMost(v / 2, n - 1); }
  }

  /** Table F.1: a negative number is coded as what it lacks to the next power of two, minus one. */
  function ExtraBits(v: int): (r: nat)
    ensures r < Pow2(BitLength(Magnitude(v)))
  {
    BitLengthBounds(Magnitude(v));
    if v < 0 then v - 1 + Pow2(BitLength(Magnitude(v))) else v
  }

  /** s_extend_test and s_extend_offset. */
  function ExtendTest(s: nat): nat { if s == 0 then 0 else Pow2(s - 1) }

  function ExtendOffset(s: nat): int { if s == 0 then 0 else 1 - Pow2(s) }

  /** JPGD_HUFF_EXTEND. */
  function Extend(x: nat, s: nat): int {
    if x < ExtendTest(s % 16) then x + ExtendOffset(s % 16) else x
  }

  /** Extending the extra bits of a number gives the number back. */
  lemma ExtendExtra(v: int)
    requires Magnitude(v) < 32768
    ensures BitLength(Magnitude(v)) < 16 && Extend(ExtraBits(v), BitLength(Magnitude(v))) == v
  {
    hide BitLength;
    BitLengthBounds(Magnitude(v));
    WordPower();
    BitLengthAtMost(Magnitude(v), 15);
    NothingLonger();
    ExtendOf(v, BitLength(Magnitude(v)));
  }

  lemma ExtendOf(v: int, n: nat)
    requires n == BitLength(Magnitude(v)) < 16 && Magnitude(v) < Pow2(n) && (v != 0 ==> n > 0 && Pow2(n - 1) <= Magnitude(v))
    requires v == 0 ==> n == 0
    ensures Extend(ExtraBits(v), n) == v
  {
    hide BitLength, Pow2;
    HalfPower(n);
  }

  lemma HalfPower(n: nat)
    ensures n > 0 ==> Pow2(n) == 2 * Pow2(n - 1)
  {
  }

  lemma NothingLonger()
    ensures BitLength(0) == 0
  {
  }

  /** The extra bits as the encoder cuts them out of v, or of v - 1 for negative v: & ((1 << n) - 1). */
  lemma CutOut(v: int)
    ensures (if v < 0 then v - 1 else v) % Pow2(BitLength(Magnitude(v))) == ExtraBits(v)
  {
    var p := Pow2(BitLength(Magnitude(v)));
    BitLengthBounds(Magnitude(v));
    if v < 0 { DivUnique(v - 1, p, -1, v - 1 + p); } else { DivUnique(v, p, 0, v); }
  }

  /** while (v) { n++; v >>= 1; } */
  method CountBits(v: nat) returns (nbits: nat)
    ensures nbits == BitLength(v)
  {
    var temp1: nat := v;
    nbits := 0;
    while temp1 != 0
      invariant nbits + BitLength(temp1) == BitLength(v)
      decreases temp1
    {
      nbits := nbits + 1;
      temp1 := temp1 / 2;
    }
  }

  /** n = 1; while (v >>= 1) n++; */
  method CountBitsFromOne(v: nat) returns (nbits: nat)
    requires v > 0
    ensures nbits == BitLength(v)
  {
    nbits := 1;
    var temp1: nat := v / 2;
    while temp1 != 0
      invariant nbits + BitLength(temp1) == BitLength(v)
      decreases temp1
    {
      nbits := nbits + 1;
      temp1 := temp1 / 2;
    }
  }

  // ---- The symbols of a block ----

  /** A symbol and the extra bits behind its code. */
  datatype Item = Item(symbol: nat, nbits: nat, value: nat)

  const END_OF_BLOCK: Item := Item(0, 0, 0)
  const SIXTEEN_ZEROS: Item := Item(0xF0, 0, 0)

  function DcItem(diff: int): Item {
    Item(BitLength(Magnitude(diff)), BitLength(Magnitude(diff)), ExtraBits(diff))
  }

  function AcItem(run: nat, v: int): Item {
    Item(16 * run + BitLength(Magnitude(v)), BitLength(Magnitude(v)), ExtraBits(v))
  }

  /** How many zeros there are from k on. */
  function ZeroRun(c: seq<int>, k: nat): (z: nat)
    requires k <= |c|
    ensures k + z <= |c| && (forall i :: k <= i < k + z ==> c[i] == 0) && (k + z < |c| ==> c[k + z] != 0)
    decreases |c| - k
  {
    if k == |c| || c[k] != 0 then 0 else 1 + ZeroRun(c, k + 1)
  }

  /** The items for the coefficients from k on, in zigzag order. */
  function AcItems(c: seq<int>, k: nat): seq<Item>
    requires k <= |c|
    decreases |c| - k
  {
    if k == |c| then [] else
      var z := ZeroRun(c, k);
      if k + z == |c| then [END_OF_BLOCK]
      else if z >= 16 then [SIXTEEN_ZEROS] + AcItems(c, k + 16)
      else [AcItem(z, c[k + z])] + AcItems(c, k + z + 1)
  }

  /** A block whose numbers fit the symbols: 64 coefficients of 16 bits. */
  ghost predicate ValidBlock(c: seq<int>) {
    |c| == 64 && forall k :: 0 <= k < 64 ==> Magnitude(c[k]) < 32768
  }

  lemma AcItemsOf(c: seq<int>, i: nat, run: nat)
    requires run <= i <= |c| && forall k :: i - run <= k < i ==> c[k] == 0
    ensures i < |c| && c[i] != 0 && run >= 16 ==> AcItems(c, i - run) == [SIXTEEN_ZEROS] + AcItems(c, i - run + 16)
    ensures i < |c| && c[i] != 0 && run < 16 ==> AcItems(c, i - run) == [AcItem(run, c[i])] + AcItems(c, i + 1)
    ensures i == |c| && run > 0 ==> AcItems(c, i - run) == [END_OF_BLOCK]
    ensures i == |c| && run == 0 ==> AcItems(c, i - run) == []
  {
    hide ZeroRun, BitLength, ExtraBits, AcItems;
    ZeroRunIs(c, i - run, run);
    if i == |c| || c[i] != 0 { AcItemsStep(c, i - run, run); }
  }

  lemma AcItemsStep(c: seq<int>, k: nat, z: nat)
    requires k + z <= |c| && (k < |c| ==> ZeroRun(c, k) == z)
    ensures AcItems(c, k) ==
      if k == |c| then [] else if k + z == |c| then [END_OF_BLOCK]
      else if z >= 16 then [SIXTEEN_ZEROS] + AcItems(c, k + 16)
      else [AcItem(z, c[k + z])] + AcItems(c, k + z + 1)
  {
    hide ZeroRun, BitLength, ExtraBits;
  }

  lemma {:induction false} ZeroRunIs(c: seq<int>, k: nat, z: nat)
    requires k + z <= |c| && forall j :: k <= j < k + z ==> c[j] == 0
    ensures k + z == |c| || c[k + z] != 0 ==> ZeroRun(c, k) == z
    decreases z
  {
    if z > 0 { ZeroRunIs(c, k + 1, z - 1); }
  }

  // ---- Pass one ----

  function Occurrences(items: seq<Item>, symbol: nat): nat {
    if items == [] then 0 else Occurrences(items[..|items| - 1], symbol) + B2N(items[|items| - 1].symbol == symbol)
  }

  lemma OccurrencesPush(items: seq<Item>, item: Item, symbol: nat)
    ensures Occurrences(items + [item], symbol) == Occurrences(items, symbol) + B2N(item.symbol == symbol)
  {
    assert (items + [item])[..|items|] == items;
  }

  /** Counted: what the counts have grown by. */
  ghost predicate Counted(before: seq<nat>, now: seq<nat>, items: seq<Item>) {
    |before| == |now| && forall s: nat :: s < |now| ==> now[s] == before[s] + Occurrences(items, s)
  }

  lemma CountedStep(before: seq<nat>, now: seq<nat>, items: seq<Item>, item: Item)
    requires Counted(before, now, items) && item.symbol < |now|
    ensures Counted(before, now[item.symbol := now[item.symbol] + 1], items + [item])
  {
    hide Occurrences;
    forall s: nat | s < |now|
      ensures now[item.symbol := now[item.symbol] + 1][s] == before[s] + Occurrences(items + [item], s)
    {
      OccurrencesPush(items, item, s);
    }
  }

  method CountSymbol(count: array<nat>, ghost before: seq<nat>, ghost items: seq<Item>, ghost item: Item, symbol: nat)
    requires Counted(before, count[..], items) && symbol == item.symbol < count.Length
    modifies count
    ensures Counted(before, count[..], items + [item])
  {
    hide Counted;
    ghost var was := count[..];
    CountedStep(before, was, items, item);
    count[symbol] := count[symbol] + 1;
    assert count[..] == was[symbol := was[symbol] + 1];
  }

  lemma SymbolFits(run: nat, v: int)
    requires run < 16 && v != 0 && Magnitude(v) < 32768
    ensures AcItem(run, v).symbol < 256 && 1 <= BitLength(Magnitude(v)) <= 15
    ensures AcItem(run, v).symbol % 16 == BitLength(Magnitude(v)) && AcItem(run, v).symbol / 16 == run
  {
    WordPower();
    BitLengthAtMost(Magnitude(v), 15);
    DivUnique(AcItem(run, v).symbol, 16, run, BitLength(Magnitude(v)));
  }

  /** The items done and the ones from the pending run of zeros on are the items of the block. */
  ghost predicate Midway(c: seq<int>, i: nat, run: nat, done: seq<Item>) {
    && run < i <= |c| == 64 && (forall k :: i - run <= k < i ==> c[k] == 0)
    && done + AcItems(c, i - run) == AcItems(c, 1)
  }

  lemma MidwayStart(c: seq<int>)
    requires |c| == 64
    ensures Midway(c, 1, 0, [])
  {
    assert [] + AcItems(c, 1) == AcItems(c, 1);
  }

  lemma MidwayZero(c: seq<int>, i: nat, run: nat, done: seq<Item>)
    requires Midway(c, i, run, done) && i < 64 && c[i] == 0
    ensures Midway(c, i + 1, run + 1, done)
  {
  }

  lemma MidwaySixteen(c: seq<int>, i: nat, run: nat, done: seq<Item>)
    requires Midway(c, i, run, done) && i < 64 && c[i] != 0 && run >= 16
    ensures Midway(c, i, run - 16, done + [SIXTEEN_ZEROS])
  {
    AcItemsOf(c, i, run);
    assert done + [SIXTEEN_ZEROS] + AcItems(c, i - run + 16) == done + ([SIXTEEN_ZEROS] + AcItems(c, i - run + 16));
  }

  lemma MidwayNumber(c: seq<int>, i: nat, run: nat, done: seq<Item>)
    requires Midway(c, i, run, done) && i < 64 && c[i] != 0 && run < 16
    ensures Midway(c, i + 1, 0, done + [AcItem(run, c[i])])
  {
    AcItemsOf(c, i, run);
    assert done + [AcItem(run, c[i])] + AcItems(c, i + 1) == done + ([AcItem(run, c[i])] + AcItems(c, i + 1));
  }

  lemma MidwayEnd(c: seq<int>, run: nat, done: seq<Item>)
    requires Midway(c, 64, run, done)
    ensures run > 0 ==> done + [END_OF_BLOCK] == AcItems(c, 1)
    ensures run == 0 ==> done == AcItems(c, 1)
  {
    AcItemsOf(c, 64, run);
    assert done + [] == done;
  }

  /** Counts the runs of sixteen zeros before a number. */
  method CountRuns(c: seq<int>, i: nat, run: nat, ac_count: array<nat>, ghost before: seq<nat>, ghost items: seq<Item>)
    returns (run_len: nat, ghost done: seq<Item>)
    requires Midway(c, i, run, items) && i < 64 && c[i] != 0 && ac_count.Length == 256 && Counted(before, ac_count[..], items)
    modifies ac_count
    ensures run_len < 16 && Midway(c, i, run_len, done) && Counted(before, ac_count[..], done)
  {
    hide Counted, Midway;
    run_len, done := run, items;
    while run_len >= 16
      invariant Midway(c, i, run_len, done) && Counted(before, ac_count[..], done)
    {
      MidwaySixteen(c, i, run_len, done);
      CountSymbol(ac_count, before, done, SIXTEEN_ZEROS, 0xF0);
      done := done + [SIXTEEN_ZEROS];
      run_len := run_len - 16;
    }
  }

  /** code_coefficients_pass_one: counts exactly the symbols of the block. */
  method CodeCoefficientsPassOne(c: seq<int>, last_dc_val: int, dc_count: array<nat>, ac_count: array<nat>)
    returns (last_dc_val': int)
    requires ValidBlock(c) && dc_count != ac_count && dc_count.Length == 256 == ac_count.Length
    requires Magnitude(c[0] - last_dc_val) < 65536
    modifies dc_count, ac_count
    ensures last_dc_val' == c[0]
    ensures Counted(old(dc_count[..]), dc_count[..], [DcItem(c[0] - last_dc_val)])
    ensures Counted(old(ac_count[..]), ac_count[..], AcItems(c, 1))
  {
    hide Counted, AcItems, Midway, BitLength, ExtraBits;
    var temp1 := c[0] - last_dc_val;
    last_dc_val' := c[0];
    ghost var diff := temp1;
    if temp1 < 0 { temp1 := -temp1; }
    var nbits := CountBits(temp1);
    WordPower();
    BitLengthAtMost(temp1, 16);
    NothingCounted(dc_count[..]);
    NothingCounted(ac_count[..]);
    ghost var dc_before, before := dc_count[..], ac_count[..];
    CountSymbol(dc_count, dc_before, [], DcItem(diff), nbits);
    assert [] + [DcItem(diff)] == [DcItem(diff)];
    var run_len: nat := 0;
    ghost var done: seq<Item> := [];
    MidwayStart(c);
    for i := 1 to 64
      invariant Midway(c, i, run_len, done) && Counted(before, ac_count[..], done)
      invariant Counted(dc_before, dc_count[..], [DcItem(diff)])
    {
      var temp := c[i];
      if temp == 0 {
        MidwayZero(c, i, run_len, done);
        run_len := run_len + 1;
      } else {
        run_len, done := CountRuns(c, i, run_len, ac_count, before, done);
        MidwayNumber(c, i, run_len, done);
        SymbolFits(run_len, temp);
        if temp < 0 { temp := -temp; }
        nbits := CountBitsFromOne(temp);
        CountSymbol(ac_count, before, done, AcItem(run_len, c[i]), run_len * 16 + nbits);
        done := done + [AcItem(run_len, c[i])];
        run_len := 0;
      }
    }
    MidwayEnd(c, run_len, done);
    if run_len != 0 {
      CountSymbol(ac_count, before, done, END_OF_BLOCK, 0);
    }
  }

  lemma NothingCounted(count: seq<nat>)
    ensures Counted(count, count, [])
  {
  }

  // ---- Pass two ----

  /** The symbol has a code, and the extra bits are as many as its low four bits say. */
  ghost predicate Codable(t: TableSpec, item: Item)
    requires ValidTable(t)
  {
    SymbolCode(t, item.symbol) != [] && item.symbol % 16 == item.nbits && item.symbol < 256 && item.value < Pow2(item.nbits)
  }

  ghost predicate AllCodable(t: TableSpec, items: seq<Item>)
    requires ValidTable(t)
  {
    forall i :: 0 <= i < |items| ==> Codable(t, items[i])
  }

  ghost function ItemBits(t: TableSpec, item: Item): BitString
    requires ValidTable(t)
  {
    SymbolCode(t, item.symbol) + CodeBits(item.value, item.nbits)
  }

  ghost function ItemsBits(t: TableSpec, items: seq<Item>): BitString
    requires ValidTable(t)
  {
    if items == [] then [] else ItemBits(t, items[0]) + ItemsBits(t, items[1..])
  }

  lemma {:induction false} ItemsBitsConcat(t: TableSpec, a: seq<Item>, b: seq<Item>)
    requires ValidTable(t)
    ensures ItemsBits(t, a + b) == ItemsBits(t, a) + ItemsBits(t, b)
    decreases |a|
  {
    hide ValidTable, ItemBits;
    if a == [] {
      assert a + b == b;
    } else {
      assert (a + b)[1..] == a[1..] + b;
      ItemsBitsConcat(t, a[1..], b);
    }
  }

  lemma ItemsBitsPush(t: TableSpec, a: seq<Item>, item: Item)
    requires ValidTable(t)
    ensures ItemsBits(t, a + [item]) == ItemsBits(t, a) + ItemBits(t, item)
  {
    hide ValidTable, ItemBits;
    ItemsBitsConcat(t, a, [item]);
    assert [item][1..] == [];
  }

  /** Writes the code of a symbol. */
  method PutSymbol(w: BitPutter, codes: seq<nat>, code_sizes: seq<nat>, symbol: Byte, ghost t: TableSpec)
    requires w.Valid() && ValidTable(t) && EncoderTable(codes, code_sizes, t)
    modifies w
    ensures w.Valid() && w.Written() == old(w.Written()) + SymbolCode(t, symbol)
  {
    hide ValidTable, SymbolCode, CodeBits, BitPutter.Valid, BitPutter.Written;
    assert code_sizes[symbol] <= 16;
    w.PutBits(codes[symbol], code_sizes[symbol]);
  }

  /** Writes a symbol's code and its extra bits. */
  method PutItem(w: BitPutter, codes: seq<nat>, code_sizes: seq<nat>, symbol: Byte, nbits: nat, extra: nat,
                 ghost t: TableSpec, ghost item: Item)
    requires w.Valid() && ValidTable(t) && EncoderTable(codes, code_sizes, t)
    requires Codable(t, item) && item == Item(symbol, nbits, extra)
    modifies w
    ensures w.Valid() && w.Written() == old(w.Written()) + ItemBits(t, item)
  {
    hide ValidTable, SymbolCode, CodeBits, BitPutter.Valid, BitPutter.Written, EncoderTable;
    PutSymbol(w, codes, code_sizes, symbol, t);
    ghost var code := SymbolCode(t, symbol);
    if nbits != 0 {
      w.PutBits(extra, nbits);
    } else {
      NoExtraBits(extra);
    }
    assert old(w.Written()) + code + CodeBits(extra, nbits) == old(w.Written()) + (code + CodeBits(extra, nbits));
  }

  lemma NoExtraBits(extra: nat)
    ensures CodeBits(extra, 0) == []
  {
  }

  /** The next item is one of the block's. */
  lemma MidwayItem(t: TableSpec, c: seq<int>, i: nat, run: nat, done: seq<Item>, item: Item)
    requires |c| == 64 && ValidTable(t) && AllCodable(t, AcItems(c, 1)) && Midway(c, i, run, done + [item])
    ensures Codable(t, item)
  {
    hide ValidTable, Codable, AcItems;
    assert AcItems(c, 1)[|done|] == item;
  }

  lemma LastItem(t: TableSpec, c: seq<int>, done: seq<Item>, item: Item)
    requires |c| == 64 && ValidTable(t) && AllCodable(t, AcItems(c, 1)) && done + [item] == AcItems(c, 1)
    ensures Codable(t, item)
  {
    hide ValidTable, Codable, AcItems;
    assert AcItems(c, 1)[|done|] == item;
  }

  /** Writes the runs of sixteen zeros before a number. */
  method PutRuns(w: BitPutter, codes: seq<nat>, code_sizes: seq<nat>, ghost t: TableSpec, ghost c: seq<int>, ghost i: nat,
                 run: nat, ghost items: seq<Item>, ghost start: BitString)
    returns (run_len: nat, ghost done: seq<Item>)
    requires |c| == 64 && w.Valid() && ValidTable(t) && EncoderTable(codes, code_sizes, t) && AllCodable(t, AcItems(c, 1))
    requires Midway(c, i, run, items) && i < 64 && c[i] != 0 && w.Written() == start + ItemsBits(t, items)
    modifies w
    ensures run_len < 16 && Midway(c, i, run_len, done) && w.Valid() && w.Written() == start + ItemsBits(t, done)
  {
    hide AcItems, ValidTable, Midway, AllCodable, Codable, EncoderTable, BitPutter.Valid, BitPutter.Written, ItemsBits, ItemBits;
    run_len, done := run, items;
    while run_len >= 16
      invariant Midway(c, i, run_len, done) && w.Valid() && w.Written() == start + ItemsBits(t, done)
    {
      MidwaySixteen(c, i, run_len, done);
      MidwayItem(t, c, i, run_len - 16, done, SIXTEEN_ZEROS);
      PutSixteen(w, codes, code_sizes, t, done, start);
      done := done + [SIXTEEN_ZEROS];
      run_len := run_len - 16;
    }
  }

  method PutSixteen(w: BitPutter, codes: seq<nat>, code_sizes: seq<nat>, ghost t: TableSpec, ghost done: seq<Item>,
                    ghost start: BitString)
    requires w.Valid() && ValidTable(t) && EncoderTable(codes, code_sizes, t) && Codable(t, SIXTEEN_ZEROS)
    requires w.Written() == start + ItemsBits(t, done)
    modifies w
    ensures w.Valid() && w.Written() == start + ItemsBits(t, done + [SIXTEEN_ZEROS])
  {
    hide ValidTable, Codable, EncoderTable, BitPutter.Valid, BitPutter.Written, ItemsBits, ItemBits;
    PutItem(w, codes, code_sizes, 0xF0, 0, 0, t, SIXTEEN_ZEROS);
    ItemsBitsPush(t, done, SIXTEEN_ZEROS);
    Appended(start, ItemsBits(t, done), ItemBits(t, SIXTEEN_ZEROS));
  }

  lemma Appended(a: BitString, b: BitString, c: BitString)
    ensures a + b + c == a + (b + c)
  {
  }

  /** The item for a number, as the encoder computes it. */
  method PutNumber(w: BitPutter, codes: seq<nat>, code_sizes: seq<nat>, ghost t: TableSpec, run_len: nat, v: int)
    requires w.Valid() && ValidTable(t) && EncoderTable(codes, code_sizes, t)
    requires run_len < 16 && v != 0 && Magnitude(v) < 32768 && Codable(t, AcItem(run_len, v))
    modifies w
    ensures w.Valid() && w.Written() == old(w.Written()) + ItemBits(t, AcItem(run_len, v))
  {
    hide ValidTable, Codable, EncoderTable, BitPutter.Valid, BitPutter.Written, ItemBits, BitLength, ExtraBits;
    var temp1, temp2 := v, v;
    if temp2 < 0 {
      temp1 := -temp1;
      temp2 := temp2 - 1;
    }
    var nbits := CountBitsFromOne(temp1);
    SymbolFits(run_len, v);
    CutOut(v);
    PutItem(w, codes, code_sizes, run_len * 16 + nbits, nbits, temp2 % Pow2(nbits), t, AcItem(run_len, v));
  }

  /** code_coefficients_pass_two: writes the codes and extra bits of exactly the symbols that pass one counts. */
  method CodeCoefficientsPassTwo(w: BitPutter, c: seq<int>, last_dc_val: int, dc_codes: seq<nat>, dc_sizes: seq<nat>,
                                 ac_codes: seq<nat>, ac_sizes: seq<nat>, ghost dc: TableSpec, ghost ac: TableSpec)
    returns (last_dc_val': int)
    requires ValidBlock(c) && w.Valid() && ValidTable(dc) && ValidTable(ac)
    requires EncoderTable(dc_codes, dc_sizes, dc) && EncoderTable(ac_codes, ac_sizes, ac)
    requires Codable(dc, DcItem(c[0] - last_dc_val)) && AllCodable(ac, AcItems(c, 1))
    modifies w
    ensures last_dc_val' == c[0] && w.Valid()
    ensures w.Written() == old(w.Written()) + ItemBits(dc, DcItem(c[0] - last_dc_val)) + ItemsBits(ac, AcItems(c, 1))
  {
    hide ValidTable, Midway, AllCodable, Codable, EncoderTable, BitPutter.Valid, BitPutter.Written, ItemsBits, ItemBits,
         BitLength, ExtraBits, AcItems;
    PutDc(w, c[0] - last_dc_val, dc_codes, dc_sizes, dc);
    last_dc_val' := c[0];
    ghost var start := w.Written();
    var run_len: nat := 0;
    ghost var done: seq<Item> := [];
    MidwayStart(c);
    NoItems(ac, start);
    for i := 1 to 64
      invariant Midway(c, i, run_len, done) && w.Valid() && w.Written() == start + ItemsBits(ac, done)
    {
      var temp := c[i];
      if temp == 0 {
        MidwayZero(c, i, run_len, done);
        run_len := run_len + 1;
      } else {
        run_len, done := PutRuns(w, ac_codes, ac_sizes, ac, c, i, run_len, done, start);
        MidwayNumber(c, i, run_len, done);
        MidwayItem(ac, c, i + 1, 0, done, AcItem(run_len, c[i]));
        PutNumber(w, ac_codes, ac_sizes, ac, run_len, c[i]);
        ItemsBitsPush(ac, done, AcItem(run_len, c[i]));
        Appended(start, ItemsBits(ac, done), ItemBits(ac, AcItem(run_len, c[i])));
        done := done + [AcItem(run_len, c[i])];
        run_len := 0;
      }
    }
    MidwayEnd(c, run_len, done);
    if run_len != 0 {
      LastItem(ac, c, done, END_OF_BLOCK);
      PutItem(w, ac_codes, ac_sizes, 0, 0, 0, ac, END_OF_BLOCK);
      ItemsBitsPush(ac, done, END_OF_BLOCK);
      Appended(start, ItemsBits(ac, done), ItemBits(ac, END_OF_BLOCK));
    }
  }

  lemma NoItems(t: TableSpec, start: BitString)
    requires ValidTable(t)
    ensures start + ItemsBits(t, []) == start
  {
  }

  /** The difference to the last block's first coefficient. */
  method PutDc(w: BitPutter, diff: int, codes: seq<nat>, code_sizes: seq<nat>, ghost t: TableSpec)
    requires w.Valid() && ValidTable(t) && EncoderTable(codes, code_sizes, t) && Codable(t, DcItem(diff))
    modifies w
    ensures w.Valid() && w.Written() == old(w.Written()) + ItemBits(t, DcItem(diff))
  {
    hide ValidTable, EncoderTable, BitPutter.Valid, BitPutter.Written, ItemBits, BitLength, ExtraBits;
    var temp1, temp2 := diff, diff;
    if temp1 < 0 {
      temp1 := -temp1;
      temp2 := temp2 - 1;
    }
    var nbits := CountBits(temp1);
    CutOut(diff);
    PutItem(w, codes, code_sizes, nbits, nbits, temp2 % Pow2(nbits), t, DcItem(diff));
  }
}
