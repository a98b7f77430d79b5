/** Inputs for which the JPEG encoder and decoder fail; the exact conditions are in the contracts of the methods called here. */
module JpegFindings {
  import opened Bits
  import opened Canonical
  import opened JpegTables
  import opened JpegTreeSize
  import opened JpegLookup
  import opened JpegMinimum
  import opened JpegMoffat
  import opened JpegDepths
  import opened JpegRadix
  import opened JpegLimit
  import opened JpegSymbols
  import opened JpegLevel
  import opened JpegLongCodes
  import opened JpegOptimize

  // ---- A count of 256 codes ----

  /** The first 255 symbols occur seven times each. */
  ghost predicate Sevens(counts: seq<nat>) {
    |counts| == 256 && forall i: nat :: i < 256 ==> counts[i] == if i < 255 then 7 else 0
  }

  lemma {:induction false} UsedSevens(counts: seq<nat>, n: nat)
    requires Sevens(counts) && n <= 256
    ensures |Used(counts, n)| == if n < 255 then n + 1 else 256
  {
    if n > 0 { UsedSevens(counts, n - 1); }
  }

  lemma {:induction false} SumSevens(counts: seq<nat>, n: nat)
    requires Sevens(counts) && n <= 256
    ensures Sum(counts[..n]) <= 7 * n
  {
    if n > 0 {
      SumSevens(counts, n - 1);
      assert counts[..n] == counts[..n - 1] + [counts[n - 1]];
      SumPush(counts[..n - 1], counts[n - 1]);
    }
  }

  /** For 255 symbols of equal frequency the program makes a table without any code (compositor/jpge.cpp:226-229). */
  method NoCodes() returns (ok: bool, t: TableSpec, counts: array<nat>)
    ensures fresh(counts) && Sevens(counts[..]) && ok && !TableFor(t, counts[..], 256)
  {
    hide MinimumRedundancy, Ordered, Used, AtMost, Sum, TableFor, Limited, CountsOf, SizesAre;
    counts := new nat[256](i => if 0 <= i < 255 then 7 else 0);
    SumSevens(counts[..], 256);
    assert counts[..][..256] == counts[..256];
    UsedSevens(counts[..], 256);
    ghost var syms, l, num;
    ok, t, syms, l, num := OptimizeHuffmanTable(counts, 256);
  }

  /** With one count that is greater by two, all is well. */
  lemma NineAmongSevens(counts: seq<nat>, k: nat)
    requires Sevens(counts) && k < 255
    ensures !CountsClose(counts[k := 9], 256)
  {
    var j := if k == 0 then 1 else 0;
    assert counts[k := 9][k] == 9 && counts[k := 9][j] == 7;
  }

  // ---- A tree of more than 512 cells ----

  /** Two codes of 15 bits and 253 of 16. */
  function LongTable(): (t: TableSpec)
    ensures |t.bits| == 17 && |t.val| == 255
  {
    TableSpec(seq(17, i => if i == 15 then 2 else if i == 16 then 253 else 0), seq(255, i requires 0 <= i < 255 => i))
  }

  lemma BehindAll(bits: seq<Byte>, d: nat)
    requires bits == LongTable().bits && d <= 14
    ensures Behind(bits, d) == 257
    decreases 14 - d
  {
    if d < 14 { BehindAll(bits, d + 1); } else { assert Behind(bits, 16) == 0 && Behind(bits, 15) == 253; }
  }

  /** It is a table of distinct symbols whose lengths fit into a prefix code. */
  lemma LongTableValid()
    ensures ValidTable(LongTable())
  {
    hide KraftTo, SizesTo, Pow2;
    var t := LongTable();
    BehindAll(t.bits, 0);
    BehindIsKraft(t.bits, 0);
    KraftZero(Sizes(t.bits), 16, |Sizes(t.bits)|);
    SizesToAscending(t.bits, 16);
    LongTableSizes();
    SixteenBits();
  }

  lemma SixteenBits()
    ensures Pow2(16) == 65536
  {
    assert Pow2(4) == 16 && Pow2(8) == 256 && Pow2(12) == 4096;
  }

  lemma LongTableSizes()
    ensures |Sizes(LongTable().bits)| == 255
  {
    var bits := LongTable().bits;
    NoSizes(bits, 14);
    assert SizesTo(bits, 15) == Copies(15, 2);
  }

  /** Its codes have 261 prefixes of eight bits or more. */
  lemma LongTableSize()
    ensures TreeSize(LongTable().bits) == 261
  {
    var bits := LongTable().bits;
    assert Behind(bits, 16) == 0 && Behind(bits, 15) == 253;
    BehindAll(bits, 14);
    BehindAll(bits, 13);
    BehindAll(bits, 12);
    BehindAll(bits, 11);
    BehindAll(bits, 10);
    BehindAll(bits, 9);
    BehindAll(bits, 8);
    assert LevelSize(bits, 15) == 127 && LevelSize(bits, 14) == 65 && LevelSize(bits, 13) == 33 && LevelSize(bits, 12) == 17;
    assert LevelSize(bits, 11) == 9 && LevelSize(bits, 10) == 5 && LevelSize(bits, 9) == 3 && LevelSize(bits, 8) == 2;
    assert NodesFrom(bits, 16) == 0 && NodesFrom(bits, 14) == 192 && NodesFrom(bits, 12) == 242 && NodesFrom(bits, 10) == 256;
  }

  /** A file may carry this table, and the decoder writes behind the 512 cells of its tree (compositor/jpgd.cpp:2307-2345). */
  method TreeOverflow() returns (ok: bool)
    ensures !ok
  {
    hide ValidTable, TreeSize;
    LongTableValid();
    LongTableSize();
    var h := new HuffTables();
    ok := h.MakeHuffTable(LongTable());
  }
}
