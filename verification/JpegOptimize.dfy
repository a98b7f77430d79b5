/** Optimized Huffman tables (compositor/jpge.cpp:207-240). */
module JpegOptimize {
  import opened Bits
  import opened PrefixCode
  import opened Canonical
  import opened JpegTables
  import opened JpegLookup
  import opened JpegMinimum
  import opened JpegMoffat
  import opened JpegHeight
  import opened JpegDepths
  import opened JpegFibonacci
  import opened JpegLimit
  import opened JpegRadix
  import opened JpegCounts
  import opened JpegSymbols
  import opened JpegLevel

  // ---- optimize_huffman_table ----

  /** The parts of a minimum-redundancy code that the counting needs. */
  lemma MinimumParts(w: seq<nat>, l: seq<nat>)
    requires MinimumRedundancy(w, l) && AtMost(l, 32)
    ensures |l| == |w| && Descending(l) && (forall i :: 0 <= i < |l| ==> l[i] >= 1) && Kraft(l, 32) == Pow2(32)
  {
    hide Cost, HuffmanCost, Kraft, Fits;
    CompleteAt32(l);
  }

  lemma LengthsCounted(w: seq<nat>, l: seq<nat>, num: seq<nat>)
    requires MinimumRedundancy(w, l) && AtMost(l, 32) && CountsOf(num, l)
    ensures KraftOf(num, 32, 32) == Pow2(32) && CodeCount(num, 32) == |w|
  {
    hide MinimumRedundancy, KraftOf, CodeCount, Kraft, CountsOf;
    MinimumParts(w, l);
    CountsKraft(num, l);
  }

  /** The counts as bytes: what does not fit is cut off. */
  ghost predicate CutTo(bits: seq<Byte>, num: seq<nat>, n: nat) {
    |bits| == 17 <= |num| && n <= 16 && bits[0] == 0 && forall i :: 1 <= i <= n ==> bits[i] == num[i] % 256
  }

  /** Up to 255 codes, dummy included, nothing is cut off; a complete code has a last length. */
  lemma NothingCut(bits: seq<Byte>, num: seq<nat>, count: nat)
    requires CutTo(bits, num, 16) && Limited(num, count, 16) && forall i :: 1 <= i <= 16 ==> num[i] < 256
    ensures (forall i :: 1 <= i <= 16 ==> bits[i] == num[i]) && Limited(bits, count, 16)
    ensures exists i :: 1 <= i <= 16 && bits[i] != 0
  {
    forall i: nat | 1 <= i <= 16 ensures bits[i] == num[i] { DivUnique(num[i], 256, 0, num[i]); }
    KraftOfPrefix(num, bits, 16, 16);
    AllLong(bits, 16, 16);
  }

  /** The dummy symbol goes, from the largest length that has codes. */
  method RemoveDummy(bits: array<Byte>) returns (ghost top: nat)
    requires bits.Length == 17
    modifies bits
    ensures (exists i :: 1 <= i <= 16 && old(bits[i]) != 0) ==>
      LastLength(old(bits[..]), top) && bits[..] == old(bits[..])[top := old(bits[..])[top] - 1]
    ensures (forall i :: 1 <= i <= 16 ==> old(bits[i]) == 0) ==> bits[..] == old(bits[..])
  {
    top := 0;
    for i := 17 downto 1
      invariant bits[..] == old(bits[..]) && forall k :: i <= k <= 16 ==> bits[k] == 0
    {
      if bits[i] != 0 {
        top := i;
        ghost var was := bits[..];
        bits[i] := bits[i] - 1;
        assert bits[..] == was[i := was[i] - 1];
        break;
      }
    }
  }

  /** Collects the symbols that occur. */
  method CollectSymbols(pSym_count: array<nat>, table_len: nat, syms0: array<SymFreq>) returns (num_used_syms: nat)
    requires pSym_count.Length == 256 && table_len <= 256 && syms0.Length == 257
    modifies syms0
    ensures num_used_syms <= 257 && syms0[..num_used_syms] == Used(pSym_count[..], table_len)
  {
    ghost var counts := pSym_count[..];
    syms0[0] := SymFreq(1, 0);
    num_used_syms := 1;
    for i := 0 to table_len
      invariant 1 <= num_used_syms <= i + 1 && syms0[..num_used_syms] == Used(counts, i)
    {
      if pSym_count[i] != 0 {
        ghost var n, was := num_used_syms, syms0[..num_used_syms];
        syms0[num_used_syms] := SymFreq(pSym_count[i], i + 1);
        num_used_syms := num_used_syms + 1;
        assert syms0[..n + 1] == was + [SymFreq(counts[i], i + 1)];
      }
    }
  }

  /** The symbols of the table: most frequent first, without the dummy. */
  method ListSymbols(pSyms: array<SymFreq>, num_used_syms: nat, ghost counts: seq<nat>, ghost n: nat) returns (val: seq<Byte>)
    requires 1 <= num_used_syms <= pSyms.Length && n <= 256 && Ordered(counts, n, pSyms[..num_used_syms])
    ensures SymbolsFrom(val, pSyms[..num_used_syms])
  {
    hide SortedByKey, Listed;
    ghost var s := pSyms[..num_used_syms];
    val := [];
    for i := num_used_syms downto 1
      invariant |val| == num_used_syms - i
      invariant forall p :: 0 <= p < |val| ==> (val[p] as int) + 1 == s[num_used_syms - 1 - p].sym_index
    {
      assert FromCount(counts, n, s[i]) && s[i] == pSyms[i];
      val := val + [pSyms[i].sym_index - 1];
    }
  }

  method CutCounts(num_codes: array<nat>) returns (bits: array<Byte>)
    requires num_codes.Length == 33
    ensures fresh(bits) && bits.Length == 17 && CutTo(bits[..], num_codes[..], 16)
  {
    bits := new Byte[17](_ => 0);
    for i := 1 to 17
      invariant CutTo(bits[..], num_codes[..], i - 1)
    {
      bits[i] := num_codes[i] % 256;
    }
  }

  /** The table that comes out of the counts of the limited code. */
  lemma TableOut(counts: seq<nat>, n: nat, s: seq<SymFreq>, num: seq<nat>, bits: seq<Byte>, top: nat, t: TableSpec)
    requires Ordered(counts, n, s) && SymbolsFrom(t.val, s) && n <= 256 && 2 <= |s| <= 256
    requires CutTo(bits, num, 16) && |num| == 33 && |bits| == 17 && Limited(num, |s|, 16)
    requires (exists i :: 1 <= i <= 16 && bits[i] != 0) ==> LastLength(bits, top) && t.bits == bits[top := bits[top] - 1]
    requires (forall i :: 1 <= i <= 16 ==> bits[i] == 0) ==> t.bits == bits
    ensures TableFor(t, counts, n) <==> forall i :: 1 <= i <= 16 ==> num[i] < 256
  {
    hide Ordered, SymbolsFrom, TableFor, CutTo, Limited;
    if forall i :: 1 <= i <= 16 ==> num[i] < 256 {
      NothingCut(bits, num, |s|);
      TableMade(counts, n, s, bits, top, t.val);
    } else {
      var i: nat :| 1 <= i <= 16 && num[i] >= 256;
      AllCut(bits, num, |s|, i);
      NoSizes(bits, 16);
      ManySymbols(t.val, s);
      NotATable(t, counts, n);
    }
  }

  lemma ManySymbols(val: seq<Byte>, s: seq<SymFreq>)
    requires SymbolsFrom(val, s)
    ensures |val| == |s| - 1
  {
  }

  lemma NotATable(t: TableSpec, counts: seq<nat>, n: nat)
    requires |t.bits| == 17 && |Sizes(t.bits)| != |t.val|
    ensures !TableFor(t, counts, n)
  {
  }

  /** If a count does not fit into a byte, it is the only one, it is 256, and nothing is left of it. */
  lemma AllCut(bits: seq<Byte>, num: seq<nat>, count: nat, i: nat)
    requires CutTo(bits, num, 16) && Limited(num, count, 16) && 1 <= i <= 16 && num[i] >= 256 && count <= 256
    ensures |bits| == 17 && forall k :: 1 <= k <= 16 ==> bits[k] == 0
  {
    hide Limited;
    assert CodeCount(num, 16) <= 256 by { LimitedCount(num, count); }
    forall k: nat | 1 <= k <= 16 ensures bits[k] == 0 {
      if k != i { OthersCount(num, i, k, 16); } else { CountAtMost(num, i, 16); }
    }
  }

  lemma LimitedCount(num: seq<nat>, count: nat)
    requires Limited(num, count, 16)
    ensures CodeCount(num, 16) == count
  {
  }

  /** If no length exceeds 16, the table has the minimum-redundancy lengths, and the dummy had one of the longest. */
  lemma MinimalLengths(w: seq<nat>, l: seq<nat>, num: seq<nat>, bits: seq<Byte>, top: nat)
    requires MinimumRedundancy(w, l) && AtMost(l, 16) && CountsOf(num, l) && 2 <= |w| <= 255
    requires CutTo(bits, num, 16) && LastLength(bits, top)
    ensures SizesAre(bits[top := bits[top] - 1], l)
  {
    hide MinimumRedundancy;
    assert AtMost(l, 32);
    MinimumParts(w, l);
    forall v: nat | 1 <= v <= 16 ensures bits[v] == CountTo(l, v, |l|) {
      CountWithin(l, v, |l|);
      DivUnique(num[v], 256, 0, num[v]);
    }
    SizesReverse(bits, l);
    LastRemoved(bits, top);
  }

  lemma {:induction false} CountWithin(l: seq<nat>, v: nat, n: nat)
    requires n <= |l|
    ensures CountTo(l, v, n) <= n
  {
    if n > 0 { CountWithin(l, v, n - 1); }
  }

  lemma ShortCodes(l: seq<nat>, num: seq<nat>)
    requires AtMost(l, 16) && CountsOf(num, l)
    ensures NoLongCodes(num, 16)
  {
    forall i: nat | 16 < i <= 32 ensures num[i] == 0 { NoneOf(l, i, |l|); }
  }

  /** A key is no more than all keys together. */
  lemma {:induction false} KeyBelowSum(s: seq<SymFreq>, i: nat)
    requires i < |s|
    ensures s[i].key <= Sum(Keys(s))
  {
    var front := s[..|s| - 1];
    assert Keys(s)[..|s| - 1] == Keys(front);
    if i < |s| - 1 { KeyBelowSum(front, i); }
  }

  lemma OneShort()
    ensures AtMost([1], 32)
  {
  }

  lemma AtMostMore(l: seq<nat>)
    requires AtMost(l, 16)
    ensures AtMost(l, 32)
  {
  }

  /** With nothing but the dummy, its code of one bit goes and no code is left. */
  lemma OnlyDummy(counts: seq<nat>, n: nat, s: seq<SymFreq>, num: seq<nat>, bits: seq<Byte>, top: nat, t: TableSpec)
    requires Ordered(counts, n, s) && |s| == 1 && SymbolsFrom(t.val, s) && n <= 256
    requires CountsOf(num, [1]) && CutTo(bits, num, 16)
    requires (exists i :: 1 <= i <= 16 && bits[i] != 0) ==> LastLength(bits, top) && t.bits == bits[top := bits[top] - 1]
    ensures TableFor(t, counts, n)
  {
    hide Ordered, TableFor;
    forall v: nat | v <= 32 ensures num[v] == B2N(v == 1) { assert CountTo([1], v, 1) == CountTo([1], v, 0) + B2N([1][0] == v); }
    forall i: nat | 1 <= i <= 16 ensures bits[i] == B2N(i == 1) {}
    assert bits[1] != 0;
    assert top == 1;
    EmptyTable(counts, n, s, t.bits);
    assert t == TableSpec(t.bits, []);
  }

  /** Nothing is cut off from the counts of up to 255 codes. */
  lemma SomeCode(num: seq<nat>, count: nat, bits: seq<Byte>)
    requires |num| == 33 && Limited(num, count, 16) && CutTo(bits, num, 16) && count <= 255
    ensures exists i :: 1 <= i <= 16 && bits[i] != 0
  {
    hide Limited;
    FewCodes(num, count);
    NothingCut(bits, num, count);
  }

  /** The sizes, with one more for the dummy symbol, are the lengths l. */
  ghost predicate SizesAre(bits: seq<Byte>, l: seq<nat>) {
    |bits| == 17 && exists top: nat :: Sizes(bits) + [top] == Reverse(l)
  }

  /** The first half: the symbols that occur, sorted, and the lengths of a minimum-redundancy code for them. */
  method MinimumLengths(pSym_count: array<nat>, table_len: nat) returns (num_used_syms: nat, pSyms: array<SymFreq>, keys: array<nat>)
    requires pSym_count.Length == 256 && table_len <= 256 && Sum(pSym_count[..table_len]) + 1 < 0x1_0000_0000
    ensures fresh(pSyms) && fresh(keys) && pSyms.Length == 257 && 1 <= num_used_syms == keys.Length <= 257
    ensures Ordered(pSym_count[..], table_len, pSyms[..num_used_syms]) && num_used_syms == |Used(pSym_count[..], table_len)|
    ensures num_used_syms == 1 ==> keys[..] == [1]
    ensures num_used_syms >= 2 ==> MinimumRedundancy(Keys(pSyms[..num_used_syms]), keys[..])
    ensures table_len <= |pSym_count[..]| && CodeHeight(pSym_count[..], table_len) == if num_used_syms == 1 then 0 else keys[0]
    ensures Sum(Keys(pSyms[..num_used_syms])) == 1 + Sum(pSym_count[..table_len])
    ensures num_used_syms == 256 && LeavesFirst(Keys(pSyms[..num_used_syms])) ==> AllAre(keys[..], 8)
  {
    hide Sum, Ordered, SortedByKey, MinimumRedundancy, Used, Sorted, LeavesFirst, AllAre, CodeHeight, TreeHeight;
    ghost var counts := pSym_count[..];
    var syms0, syms1 := new SymFreq[257](_ => SymFreq(0, 0)), new SymFreq[257](_ => SymFreq(0, 0));
    num_used_syms := CollectSymbols(pSym_count, table_len, syms0);
    UsedShape(counts, table_len);
    UsedSum(counts, table_len);
    forall i: nat | i < num_used_syms ensures Used(counts, table_len)[i].key < 0x1_0000_0000 { KeyBelowSum(Used(counts, table_len), i); }
    assert counts[..table_len] == pSym_count[..table_len];
    assert forall i :: 0 <= i < num_used_syms ==> syms0[i] == Used(counts, table_len)[i];
    pSyms := RadixSortSyms(num_used_syms, syms0, syms1);
    SortedUsed(counts, table_len, pSyms[..num_used_syms]);
    SameKeySum(pSyms[..num_used_syms], Used(counts, table_len));
    KeysSorted(pSyms[..num_used_syms]);
    HeightOfSorted(counts, table_len, pSyms[..num_used_syms]);
    if num_used_syms == 1 { HeightOfOne(Keys(pSyms[..num_used_syms])); }
    keys := new nat[num_used_syms](i requires 0 <= i < num_used_syms <= pSyms.Length reads pSyms => pSyms[i].key);
    assert keys[..] == Keys(pSyms[..num_used_syms]);
    CalculateMinimumRedundancy(keys);
    if num_used_syms == 256 { EightBitCodes(); }
  }

  lemma HeightOfOne(w: seq<nat>)
    requires |w| == 1
    ensures TreeHeight(w, []) == 0
  {
  }

  lemma EightBitCodes()
    ensures Pow2(8) == 256
  {
  }

  lemma ManyCodesFit()
    ensures Pow2(16) >= 257
  {
  }

  /** The second half: the table, from the lengths of the sorted symbols. */
  method LimitedTable(pSyms: array<SymFreq>, num_used_syms: nat, num_codes: array<nat>, ghost counts: seq<nat>, ghost n: nat,
                      ghost l: seq<nat>) returns (t: TableSpec)
    requires 1 <= num_used_syms <= 257 == pSyms.Length && n <= 256 && Ordered(counts, n, pSyms[..num_used_syms])
    requires num_codes.Length == 33 && CountsOf(num_codes[..], l) && AtMost(l, 32)
    requires num_used_syms == 1 ==> l == [1]
    requires num_used_syms >= 2 ==> MinimumRedundancy(Keys(pSyms[..num_used_syms]), l)
    modifies num_codes
    ensures num_used_syms == 1 ==> TableFor(t, counts, n)
    ensures num_used_syms >= 2 ==> Limited(num_codes[..], num_used_syms, 16)
    ensures 2 <= num_used_syms <= 255 ==> TableFor(t, counts, n)
    ensures num_used_syms == 256 ==> (TableFor(t, counts, n) <==> !AllAre(l, 8))
    ensures 2 <= num_used_syms <= 255 && AtMost(l, 16) ==> SizesAre(t.bits, l)
    ensures num_used_syms >= 2 && AtMost(l, 16) ==> CountsOf(num_codes[..], l)
  {
    hide *;
    ghost var unlimited, syms := num_codes[..], pSyms[..num_used_syms];
    ManyCodesFit();
    if num_used_syms > 1 {
      LengthsCounted(Keys(syms), l, unlimited);
      if AtMost(l, 16) { ShortCodes(l, unlimited); }
    }
    EnforceMaxCodeSize(num_codes, num_used_syms, 16);
    ghost var num := num_codes[..];
    var bits := CutCounts(num_codes);
    ghost var full := bits[..];
    ghost var top := RemoveDummy(bits);
    var val := ListSymbols(pSyms, num_used_syms, counts, n);
    t := TableSpec(bits[..], val);
    if num_used_syms == 1 {
      OnlyDummy(counts, n, syms, num, full, top, t);
    } else {
      if num_used_syms <= 256 { TableOut(counts, n, syms, num, full, top, t); }
      if num_used_syms <= 255 { FewCodes(num, num_used_syms); }
      if num_used_syms == 256 {
        LengthsOf(Keys(syms), l);
        CutExactlyIfLevel(l, unlimited, num);
      }
      if num_used_syms <= 255 && AtMost(l, 16) {
        SomeCode(num, num_used_syms, full);
        MinimalLengths(Keys(syms), l, num, full, top);
      }
    }
  }

  /**
   * optimize_huffman_table. `syms` and `l` are the sorted symbols and their unlimited lengths, `num` the counts of the
   * limited ones. `ok` is false where the program would count a length of more than 32 bits outside of num_codes, which
   * is exactly if the two queues give a tree that is higher; a sum of counts below 9227464 excludes that, however ties
   * are broken. With at most 254 symbols the table is as it should be; with 255 exactly if two of the counts differ by
   * more than one.
   */
  method OptimizeHuffmanTable(pSym_count: array<nat>, table_len: nat)
    returns (ok: bool, t: TableSpec, ghost syms: seq<SymFreq>, ghost l: seq<nat>, ghost num: seq<nat>)
    requires pSym_count.Length == 256 && table_len <= 256 && Sum(pSym_count[..table_len]) + 1 < 0x1_0000_0000
    ensures Ordered(pSym_count[..], table_len, syms) && |syms| == |Used(pSym_count[..], table_len)|
    ensures |syms| == 1 ==> ok && TableFor(t, pSym_count[..], table_len)
    ensures |syms| >= 2 ==> MinimumRedundancy(Keys(syms), l) && (ok <==> AtMost(l, 32))
    ensures ok <==> CodeHeight(pSym_count[..], table_len) <= 32
    ensures ok && |syms| >= 2 ==> |num| == 33 && Limited(num, |syms|, 16)
    ensures ok && |syms| == 256 ==> (TableFor(t, pSym_count[..], table_len) <==> !CountsClose(pSym_count[..], table_len))
    ensures |syms| == 256 && CountsClose(pSym_count[..], table_len) ==> ok
    ensures ok && |syms| <= 255 ==> TableFor(t, pSym_count[..], table_len)
    ensures 2 <= |syms| <= 255 && AtMost(l, 16) ==> ok && SizesAre(t.bits, l)
    ensures ok && |syms| >= 2 && AtMost(l, 16) ==> CountsOf(num, l)
    ensures Sum(pSym_count[..table_len]) < 9227464 ==> ok
  {
    hide Ordered, MinimumRedundancy, CountsOf, TableFor, Limited, AtMost, SizesAre, Used, Sum, CountsClose, AllAre, LeavesFirst, CodeHeight;
    var num_used_syms, pSyms, keys := MinimumLengths(pSym_count, table_len);
    syms, l := pSyms[..num_used_syms], keys[..];
    var num_codes;
    ok, num_codes := CountLengths(keys);
    OneShort();
    if num_used_syms >= 2 { LongestFirst(Keys(syms), l); }
    if AtMost(l, 16) { AtMostMore(l); }
    OrderedKeys(pSym_count[..], table_len, syms);
    if num_used_syms >= 2 && Sum(pSym_count[..table_len]) < 9227464 { NoLongCode(Keys(syms), l); }
    if num_used_syms == 256 { LevelExactlyIfClose(pSym_count[..], table_len, syms, l); }
    t, num := TableSpec([], []), [];
    if !ok { return; }
    t := LimitedTable(pSyms, num_used_syms, num_codes, pSym_count[..], table_len, l);
    num := num_codes[..];
  }

  /** All codes get 8 bits exactly if the counts are close. */
  lemma LevelExactlyIfClose(counts: seq<nat>, n: nat, s: seq<SymFreq>, l: seq<nat>)
    requires Ordered(counts, n, s) && |s| == 256 && MinimumRedundancy(Keys(s), l)
    requires LeavesFirst(Keys(s)) ==> AllAre(l, 8)
    ensures AllAre(l, 8) <==> CountsClose(counts, n)
    ensures AllAre(l, 8) ==> AtMost(l, 32)
  {
    hide Ordered, MinimumRedundancy, CountsClose, Keys;
    CloseIsLeavesFirst(counts, n, s);
    LengthsOf(Keys(s), l);
    if AllAre(l, 8) {
      EightBitCodes();
      LevelMeansClose(Keys(s), l, 8);
    }
  }

  lemma LongestFirst(w: seq<nat>, l: seq<nat>)
    requires MinimumRedundancy(w, l) && |w| >= 2
    ensures |l| == |w| && (AtMost(l, 32) <==> l[0] <= 32)
  {
    hide Cost, HuffmanCost, Kraft;
  }

  lemma LengthsOf(w: seq<nat>, l: seq<nat>)
    requires MinimumRedundancy(w, l)
    ensures |w| == |l|
  {
  }

  lemma FewCodes(num: seq<nat>, count: nat)
    requires |num| == 33 && Limited(num, count, 16) && count <= 255
    ensures forall i :: 1 <= i <= 16 ==> num[i] < 256
  {
    forall i: nat | 1 <= i <= 16 ensures num[i] < 256 { CountAtMost(num, i, 16); }
  }
}
