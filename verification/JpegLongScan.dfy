/** A scan for which a code gets 33 bits: what the encoder can receive, and what it does not expect (compositor/jpge.cpp:219-221). */
module JpegLongScan {
  import opened Bits
  import opened Canonical
  import opened JpegBlocks
  import opened JpegScan
  import opened JpegMinimum
  import opened JpegMoffat
  import opened JpegHeight
  import opened JpegDepths
  import opened JpegRadix
  import opened JpegSymbols
  import opened JpegLongCodes
  import opened JpegRoundTrip

  // ---- Steep weights on two queues ----

  lemma SumFront(w: seq<nat>, k: nat)
    requires k < |w|
    ensures Sum(w[..k + 1]) == Sum(w[..k]) + w[k]
  {
    assert w[..k + 1] == w[..k] + [w[k]];
    SumPush(w[..k], w[k]);
  }

  /** With the first k weights merged into one tree the next weight is merged with that tree. */
  lemma {:induction false} SteepFrom(w: seq<nat>, k: nat)
    requires Steep(w) && 2 <= k <= |w|
    ensures TreeHeight(w[k..], [Queued(Sum(w[..k]), k - 1)]) == |w| - 1
    decreases |w| - k
  {
    hide Sum, TreeHeight, Sorted;
    if k == |w| {
      HeightOfLast(Queued(Sum(w[..k]), k - 1));
    } else {
      SumFront(w, k);
      OneTurn(w[k..], [Queued(Sum(w[..k]), k - 1)]);
      MergeWithTree(w[k], w[k + 1..], Queued(Sum(w[..k]), k - 1));
      assert w[k..] == [w[k]] + w[k + 1..];
      SteepFrom(w, k + 1);
    }
  }

  lemma HeightOfLast(t: Queued)
    ensures TreeHeight([], [t]) == t.height
  {
  }

  lemma SteepHeight(w: seq<nat>)
    requires Steep(w) && |w| >= 2
    ensures TreeHeight(w, []) == |w| - 1
  {
    hide TreeHeight;
    SteepFrom(w, 2);
    FirstTwo(w);
  }

  lemma FirstTwo(w: seq<nat>)
    requires |w| >= 2
    ensures TreeHeight(w, []) == TreeHeight(w[2..], [Queued(Sum(w[..2]), 1)])
  {
    hide TreeHeight, Sum;
    var none: seq<Queued> := [];
    OneTurn(w, none);
    var (x, l1, t1) := Pick(w, none);
    assert l1 == w[1..] && t1 == none && w[1..][1..] == w[2..];
    assert none + [Queued(w[0] + w[1], 1)] == [Queued(w[0] + w[1], 1)];
    SumFront(w, 0);
    SumFront(w, 1);
    assert w[..0] == [];
    NoSum();
  }

  // ---- The blocks ----

  /** The 32 symbols of a run of 0 to 3 zeros before a number of 1 to 8 bits. */
  function RunOf(k: nat): nat
    requires k >= 1
  {
    (k - 1) / 8
  }

  function SizeOf(k: nat): nat
    requires k >= 1
  {
    (k - 1) % 8 + 1
  }

  function SymbolOf(k: nat): nat
    requires k >= 1
  {
    16 * RunOf(k) + SizeOf(k)
  }

  /** Which of them a symbol is, or 0. */
  function IndexOf(s: nat): nat { if s < 64 && 1 <= s % 16 <= 8 then 8 * (s / 16) + s % 16 else 0 }

  lemma SymbolIndex(k: nat, s: nat)
    requires 1 <= k <= 32
    ensures RunOf(k) < 4 && 1 <= SizeOf(k) <= 8
    ensures SymbolOf(k) == s <==> IndexOf(s) == k
  {
    assert SymbolOf(k) / 16 == RunOf(k) && SymbolOf(k) % 16 == SizeOf(k);
  }

  /** A block with one coefficient behind the first: that of symbol k. */
  function OneCoefficient(k: nat): (c: seq<int>)
    requires 1 <= k <= 32
    ensures |c| == 64
  {
    seq(64, i => if i == 1 + RunOf(k) then Pow2(SizeOf(k) - 1) else 0)
  }

  lemma {:induction false} LengthOfPower(n: nat)
    ensures BitLength(Pow2(n)) == n + 1
  {
    if n > 0 { LengthOfPower(n - 1); } else { assert BitLength(1) == 1 + BitLength(0); }
  }

  lemma OneIsValid(k: nat)
    requires 1 <= k <= 32
    ensures ValidBlock(OneCoefficient(k)) && OneCoefficient(k)[0] == 0
  {
    SymbolIndex(k, 0);
    Pow2Monotone(SizeOf(k) - 1, 7);
    assert Pow2(7) == 128;
  }

  /** Its symbols are the k-th one and the end of the block. */
  lemma ItemsOfOne(k: nat, s: nat)
    requires 1 <= k <= 32
    ensures Occurrences(AcItems(OneCoefficient(k), 1), s) == B2N(IndexOf(s) == k) + B2N(s == 0)
  {
    hide AcItems, Pow2, BitLength, ExtraBits, Occurrences, IndexOf, RunOf, SizeOf;
    SymbolIndex(k, s);
    var c, run := OneCoefficient(k), RunOf(k);
    OneIsValid(k);
    var v: nat := Pow2(SizeOf(k) - 1);
    assert v > 0;
    AcItemsOf(c, 1 + run, run);
    AcItemsOf(c, 64, 62 - run);
    LengthOfPower(SizeOf(k) - 1);
    var item := AcItem(run, v);
    assert c[1 + run] == v;
    assert AcItems(c, 1) == [item] + [END_OF_BLOCK];
    assert [] + [item] == [item];
    OccurrencesPush([], item, s);
    OccurrencesPush([item], END_OF_BLOCK, s);
    NoOccurrences(s);
  }

  lemma NoOccurrences(s: nat)
    ensures Occurrences([], s) == 0
  {
  }

  /** LongKey(i) blocks of every kind up to the k-th. */
  function LongBlocks(k: nat): seq<Block>
    requires k <= 32
  {
    if k == 0 then [] else LongBlocks(k - 1) + Copies(Block(0, OneCoefficient(k)), LongKey(k))
  }

  function KeysTo(k: nat): nat { if k == 0 then 0 else KeysTo(k - 1) + LongKey(k) }

  lemma {:induction false} KeysToIs(k: nat)
    requires k >= 1
    ensures KeysTo(k) + 2 == LongKey(k + 2)
  {
    if k >= 2 { KeysToIs(k - 1); } else { assert LongKey(3) == 3 && KeysTo(0) == 0 && LongKey(1) == 1; }
  }

  lemma {:induction false} CountCopies(front: seq<Block>, b: Block, n: nat, s: nat)
    requires b.comp == 0 && |b.c| > 0
    ensures AcCount(front + Copies(b, n), true, s) == AcCount(front, true, s) + n * Occurrences(AcItems(b.c, 1), s)
  {
    hide Occurrences, AcItems;
    if n == 0 {
      assert front + Copies(b, 0) == front;
    } else {
      CountCopies(front, b, n - 1, s);
      var before := front + Copies(b, n - 1);
      assert front + Copies(b, n) == before + [b];
      OneMoreBlock(before, b, s);
      TimesPlusOne(n - 1, Occurrences(AcItems(b.c, 1), s));
    }
  }

  lemma OneMoreBlock(before: seq<Block>, b: Block, s: nat)
    requires b.comp == 0 && |b.c| > 0
    ensures AcCount(before + [b], true, s) == AcCount(before, true, s) + Occurrences(AcItems(b.c, 1), s)
  {
    hide Occurrences, AcItems;
    assert (before + [b])[..|before|] == before;
  }

  /** What pass one counts. */
  function CountOf(k: nat, s: nat): nat { if s == 0 then KeysTo(k) else if 1 <= IndexOf(s) <= k then LongKey(IndexOf(s)) else 0 }

  lemma {:induction false} LongCounts(k: nat, s: nat)
    requires k <= 32
    ensures AcCount(LongBlocks(k), true, s) == CountOf(k, s) && |LongBlocks(k)| == KeysTo(k)
  {
    hide Occurrences, AcItems, OneCoefficient, LongKey;
    if k > 0 {
      LongCounts(k - 1, s);
      CountCopies(LongBlocks(k - 1), Block(0, OneCoefficient(k)), LongKey(k), s);
      ItemsOfOne(k, s);
      SymbolIndex(k, 0);
      SomeTimes(LongKey(k), IndexOf(s) == k, s == 0);
    }
  }

  lemma SomeTimes(n: nat, a: bool, b: bool)
    ensures n * (B2N(a) + B2N(b)) == (if a then n else 0) + if b then n else 0
  {
  }

  // ---- The keys ----

  /** How many of the symbols are below n. */
  function KindsBelow(n: nat): nat
    requires n >= 1
  {
    if n >= 64 then 32 else 8 * (n / 16) + if n % 16 == 0 then 0 else if n % 16 <= 9 then n % 16 - 1 else 8
  }

  lemma NextKind(n: nat)
    requires n >= 1
    ensures IndexOf(n) <= 32 && KindsBelow(n + 1) == if IndexOf(n) > 0 then IndexOf(n) else KindsBelow(n)
    ensures IndexOf(n) > 0 ==> KindsBelow(n) == IndexOf(n) - 1
  {
    if n < 64 {
      var q, t := n / 16, n % 16;
      assert n == 16 * q + t;
      if t < 15 { assert (n + 1) / 16 == q && (n + 1) % 16 == t + 1; } else { assert (n + 1) / 16 == q + 1 && (n + 1) % 16 == 0; }
    }
  }

  function SomeKeys(m: nat): (w: seq<nat>)
    ensures |w| == m && forall i :: 0 <= i < m ==> w[i] == LongKey(i + 1)
  {
    seq(m, i requires 0 <= i < m => LongKey(i + 1))
  }

  lemma {:induction false} UsedKeys(counts: seq<nat>, n: nat)
    requires 1 <= n <= |counts| && forall s: nat :: s < |counts| ==> counts[s] == CountOf(32, s)
    ensures Keys(Used(counts, n)) == [1, KeysTo(32)] + SomeKeys(KindsBelow(n))
  {
    hide LongKey, IndexOf, KindsBelow, KeysTo, Used, Keys, SomeKeys;
    SomethingCounted();
    if n == 1 {
      FirstKeys(counts);
      NoKinds();
    } else {
      UsedKeys(counts, n - 1);
      NextKind(n - 1);
      UsedKeysStep(counts, n);
      MoreKeys(KindsBelow(n - 1));
    }
  }

  lemma FirstKeys(counts: seq<nat>)
    requires |counts| >= 1 && counts[0] > 0
    ensures Keys(Used(counts, 1)) == [1, counts[0]] + SomeKeys(0)
  {
    hide LongKey;
    assert Used(counts, 0) == [SymFreq(1, 0)];
    assert Used(counts, 1) == [SymFreq(1, 0), SymFreq(counts[0], 1)];
  }

  lemma UsedKeysStep(counts: seq<nat>, n: nat)
    requires 1 <= n <= |counts|
    ensures Keys(Used(counts, n)) == Keys(Used(counts, n - 1)) + if counts[n - 1] > 0 then [counts[n - 1]] else []
  {
  }

  lemma MoreKeys(m: nat)
    ensures SomeKeys(m + 1) == SomeKeys(m) + [LongKey(m + 1)]
  {
    hide LongKey;
  }

  lemma SomethingCounted()
    ensures KeysTo(32) > 0
  {
  }

  lemma NoKinds()
    ensures KindsBelow(1) == 0 && KindsBelow(256) == 32
  {
  }

  /** The keys in order: the dummy, the 32 symbols, and the end of the block, which comes with every block. */
  function LongWeights(): (w: seq<nat>)
    ensures |w| == 34
  {
    [1] + SomeKeys(32) + [KeysTo(32)]
  }

  lemma FrontIsLong()
    ensures LongKeys(LongWeights()[..33])
  {
    hide LongKey;
    var w := LongWeights();
    FirstKey();
    forall i: nat | i < 33 ensures w[i] == LongKey(i) {}
  }

  lemma FirstKey()
    ensures LongKey(0) == 1
  {
  }

  lemma LastIsHeavy()
    ensures KeysTo(32) == LongKey(34) - 2 && LongKey(32) <= LongKey(33) < KeysTo(32)
  {
    hide KeysTo;
    KeysToIs(32);
    LongKeyMonotone(5, 32);
    LongKeyMonotone(32, 33);
    assert LongKey(34) == LongKey(33) + LongKey(32) && LongKey(5) == 7;
  }

  lemma LongWeightsSteep()
    ensures Steep(LongWeights())
  {
    hide LongKey, Sum, KeysTo, LongWeights;
    var w := LongWeights();
    LongWeightsAre();
    FrontIsLong();
    LastIsHeavy();
    forall i: nat, j: nat | i <= j < 34 ensures w[i] <= w[j] {
      if j < 33 { LongKeyMonotone(i, j); } else if i < 33 { LongKeyMonotone(i, 32); }
    }
    forall k: nat | 3 <= k < 34 ensures Sum(w[..k - 1]) < w[k] {
      assert w[..33][..k - 1] == w[..k - 1];
      LongKeySum(w[..33], k);
    }
  }

  lemma LongWeightsAre()
    ensures LongWeights()[33] == KeysTo(32) && forall i: nat :: i < 33 ==> LongWeights()[i] == LongKey(i)
  {
    hide LongKey, KeysTo;
    FirstKey();
  }

  // ---- The scan ----

  function LongScan(): seq<Block> { LongBlocks(32) }

  /** The keys of its counts. */
  lemma LongScanKeys()
    ensures SortedCopy(Keys(Used(AcCounts(LongScan(), true), 256))) == LongWeights()
  {
    hide LongKey, KeysTo, LongBlocks, SortedCopy, Used, Sum, AcCount, CountOf, IndexOf;
    var counts := AcCounts(LongScan(), true);
    forall s: nat | s < 256 ensures counts[s] == CountOf(32, s) { LongCounts(32, s); }
    UsedKeys(counts, 256);
    NoKinds();
    var keys, w := Keys(Used(counts, 256)), LongWeights();
    LongWeightsSteep();
    assert keys == [1] + [KeysTo(32)] + SomeKeys(32);
    assert multiset(keys) == multiset(w);
    SortedSame(SortedCopy(keys), w, multiset(w));
  }

  /** A code of 33 bits: the program leaves num_codes. */
  lemma LongScanOverflows()
    ensures !ShortCodes(LongScan())
  {
    hide TreeHeight, LongScan, LongWeights, Used, SortedCopy, Steep;
    LongScanKeys();
    LongWeightsSteep();
    SteepHeight(LongWeights());
  }

  /** And so it is however ties are broken. */
  lemma LongScanAnyTies(l: seq<nat>)
    requires MinimumRedundancy(SortedCopy(Keys(Used(AcCounts(LongScan(), true), 256))), l)
    ensures |l| == 34 && l[0] == 33
  {
    hide MinimumRedundancy, LongScan, LongWeights, Used, SortedCopy, Steep;
    LongScanKeys();
    LongWeightsSteep();
    SteepIsLong(LongWeights(), l);
    SameSize2(LongWeights(), l);
  }

  lemma SameSize2(w: seq<nat>, l: seq<nat>)
    requires MinimumRedundancy(w, l)
    ensures |w| == |l|
  {
  }

  lemma LongKeyAt34()
    ensures LongKey(34) == 7881196
  {
    assert LongKey(7) == 18 && LongKey(8) == 29;
    assert LongKey(11) == 123 && LongKey(12) == 199;
    assert LongKey(15) == 843 && LongKey(16) == 1364;
    assert LongKey(19) == 5778 && LongKey(20) == 9349;
    assert LongKey(23) == 39603 && LongKey(24) == 64079;
    assert LongKey(27) == 271443 && LongKey(28) == 439204;
    assert LongKey(31) == 1860498 && LongKey(32) == 3010349;
  }

  /** 7881194 blocks. */
  lemma LongScanSize()
    ensures |LongScan()| == 7881194
  {
    hide LongKey, KeysTo, LongBlocks;
    LongCounts(32, 0);
    LastIsHeavy();
    LongKeyAt34();
  }

  lemma {:induction false} LongBlocksPlain(k: nat)
    requires k <= 32
    ensures forall i :: 0 <= i < |LongBlocks(k)| ==> Plain(LongBlocks(k)[i])
  {
    hide LongKey, OneCoefficient, ValidBlock;
    if k > 0 {
      LongBlocksPlain(k - 1);
      OneIsValid(k);
    }
  }

  /** A block of the first component whose first coefficient is zero. */
  ghost predicate Plain(b: Block) { b.comp == 0 && ValidBlock(b.c) && b.c[0] == 0 }

  lemma {:induction false} LastDcZero(blocks: seq<Block>)
    requires forall i :: 0 <= i < |blocks| ==> Plain(blocks[i])
    ensures LastDc(blocks, 0) == 0
  {
    hide ValidBlock;
    if blocks != [] {
      assert Plain(blocks[|blocks| - 1]);
      LastDcZero(blocks[..|blocks| - 1]);
    }
  }

  /** It is a scan that the encoder takes. */
  lemma LongScanValid()
    ensures ValidScan(LongScan()) && SmallDifferences(LongScan()) && forall i :: 0 <= i < |LongScan()| ==> LongScan()[i].comp == 0
  {
    hide LongBlocks, BitLength, ExtraBits;
    var blocks := LongScan();
    LongBlocksPlain(32);
    forall i | 0 <= i < |blocks| ensures blocks[i].c != [] && DiffItem(blocks[..i], blocks[i]).nbits < 12 {
      assert Plain(blocks[i]);
      forall j | 0 <= j < i ensures Plain(blocks[..i][j]) { assert blocks[..i][j] == blocks[j]; }
      LastDcZero(blocks[..i]);
      NothingLonger();
    }
  }

  /** The encoder writes outside of num_codes for this scan, whatever the quantization tables. */
  method LongCode(q: seq<seq<int>>) returns (ok: bool)
    requires |q| == 3 && forall comp :: 0 <= comp < 3 ==> |q[comp]| == 64
    ensures !ok
  {
    hide LongScan, ValidScan, SmallDifferences, ShortCodes, Recovered;
    LongScanSize();
    LongScanValid();
    LongScanOverflows();
    var error, decoded;
    ok, error, decoded := RoundTrip(LongScan(), |LongScan()|, [0], q);
  }
}
