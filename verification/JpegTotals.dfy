/** How often symbols can occur in a scan, and which ones (compositor/jpge.cpp:617-654). */
module JpegTotals {
  import opened Bits
  import opened JpegBlocks
  import opened JpegScan
  import opened JpegMoffat
  import opened JpegRadix
  import opened JpegSymbols
  import opened JpegOptimize

  lemma {:induction false} SumOfSum(a: seq<nat>, b: seq<nat>, c: seq<nat>)
    requires |a| == |b| == |c| && forall i :: 0 <= i < |c| ==> c[i] == a[i] + b[i]
    ensures Sum(c) == Sum(a) + Sum(b)
  {
    if c != [] { SumOfSum(a[..|a| - 1], b[..|b| - 1], c[..|c| - 1]); }
  }

  lemma {:induction false} SumOfNone(a: seq<nat>)
    requires forall i :: 0 <= i < |a| ==> a[i] == 0
    ensures Sum(a) == 0
  {
    if a != [] { SumOfNone(a[..|a| - 1]); }
  }

  function OneAt(n: nat, v: nat): (a: seq<nat>)
    ensures |a| == n && forall i :: 0 <= i < n ==> a[i] == B2N(v == i)
  {
    seq(n, i requires 0 <= i < n => if v == i then 1 else 0)
  }

  lemma {:induction false} SumOfOne(a: seq<nat>, v: nat)
    requires forall i :: 0 <= i < |a| ==> a[i] == B2N(v == i)
    ensures Sum(a) <= 1 && (v >= |a| ==> Sum(a) == 0)
  {
    if a != [] { SumOfOne(a[..|a| - 1], v); }
  }

  lemma {:induction false} PartOfSum(a: seq<nat>, n: nat)
    requires n <= |a|
    ensures Sum(a[..n]) <= Sum(a) && (n < |a| ==> a[n] <= Sum(a))
    decreases |a|
  {
    if n < |a| - 1 {
      PartOfSum(a[..|a| - 1], n);
      assert a[..|a| - 1][..n] == a[..n];
    } else if n == |a| {
      assert a[..n] == a;
    }
  }

  /** The occurrences of all symbols together are no more than there are items. */
  lemma {:induction false} OccurrencesSum(items: seq<Item>, o: seq<nat>)
    requires forall s :: 0 <= s < |o| ==> o[s] == Occurrences(items, s)
    ensures Sum(o) <= |items|
    decreases |items|
  {
    hide Sum;
    if items == [] {
      SumOfNone(o);
    } else {
      var front, last := items[..|items| - 1], items[|items| - 1];
      var before: seq<nat> := seq(|o|, s requires 0 <= s < |o| => Occurrences(front, s));
      var one := OneAt(|o|, last.symbol);
      OccurrencesSum(front, before);
      SumOfOne(one, last.symbol);
      SumOfSum(before, one, o);
    }
  }

  lemma {:induction false} AcItemsNumber(c: seq<int>, k: nat)
    requires k <= |c|
    ensures |AcItems(c, k)| <= |c| - k
    decreases |c| - k
  {
    if k < |c| {
      var z := ZeroRun(c, k);
      if k + z == |c| {
      } else if z >= 16 {
        AcItemsNumber(c, k + 16);
      } else {
        AcItemsNumber(c, k + z + 1);
      }
    }
  }

  /** At most one symbol of the first kind and 63 of the second for every block. */
  lemma {:induction false} CountsSum(blocks: seq<Block>, first: bool, dc: seq<nat>, ac: seq<nat>)
    requires ValidScan(blocks) && TableCounts(dc, ac, blocks, first)
    ensures Sum(dc) <= |blocks| && Sum(ac) <= 63 * |blocks|
    decreases |blocks|
  {
    hide Sum, AcItems, DiffItem, Occurrences;
    if blocks == [] {
      SumOfNone(dc);
      SumOfNone(ac);
    } else {
      var front, b := blocks[..|blocks| - 1], blocks[|blocks| - 1];
      var dc', ac' := seq(256, s requires 0 <= s < 256 => DcCount(front, first, s)), seq(256, s requires 0 <= s < 256 => AcCount(front, first, s));
      CountsSum(front, first, dc', ac');
      var here := (b.comp == 0) == first;
      var items := if here then AcItems(b.c, 1) else [];
      var diffs := if here then [DiffItem(front, b)] else [];
      AcItemsNumber(b.c, 1);
      NoOccurrences();
      var dcMore, acMore := seq(256, s requires 0 <= s < 256 => Occurrences(diffs, s)), seq(256, s requires 0 <= s < 256 => Occurrences(items, s));
      OccurrencesSum(diffs, dcMore);
      OccurrencesSum(items, acMore);
      SumOfSum(dc', dcMore, dc);
      SumOfSum(ac', acMore, ac);
    }
  }

  lemma NoOccurrences()
    ensures forall s :: Occurrences([], s) == 0
  {
  }

  // ---- Symbols that do not occur ----

  lemma {:induction false} NeverOccurs(items: seq<Item>, s: nat)
    requires forall j :: 0 <= j < |items| ==> items[j].symbol != s
    ensures Occurrences(items, s) == 0
  {
    if items != [] { NeverOccurs(items[..|items| - 1], s); }
  }

  lemma {:induction false} RunWithoutSize(blocks: seq<Block>, first: bool, s: nat)
    requires ValidScan(blocks) && s % 16 == 0 && s != 0 && s != 0xF0
    ensures AcCount(blocks, first, s) == 0
  {
    hide AcItems, Occurrences;
    if blocks != [] {
      var b := blocks[|blocks| - 1];
      RunWithoutSize(blocks[..|blocks| - 1], first, s);
      forall j | 0 <= j < |AcItems(b.c, 1)| ensures AcItems(b.c, 1)[j].symbol != s { AcItemsShape(b.c, 1, j); }
      NeverOccurs(AcItems(b.c, 1), s);
    }
  }

  lemma {:induction false} UsedWithout(counts: seq<nat>, n: nat, a: nat, b: nat)
    requires n <= |counts| && a < b && (a < |counts| ==> counts[a] == 0) && (b < |counts| ==> counts[b] == 0)
    ensures |Used(counts, n)| + B2N(a < n) + B2N(b < n) <= n + 1
  {
    if n > 0 { UsedWithout(counts, n - 1, a, b); }
  }

  /** A table of a scan is made of at most 254 symbols and the dummy. */
  lemma FewSymbols(blocks: seq<Block>, first: bool, dc: seq<nat>, ac: seq<nat>)
    requires ValidScan(blocks) && TableCounts(dc, ac, blocks, first)
    ensures |Used(ac, 256)| <= 255 && |Used(dc, 12)| <= 255
  {
    hide AcCount, DcCount;
    RunWithoutSize(blocks, first, 16);
    RunWithoutSize(blocks, first, 32);
    UsedWithout(ac, 256, 16, 32);
  }
}
