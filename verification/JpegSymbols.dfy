/** The symbols that occur, in the order of their codes, and the tables that are right for them (compositor/jpge.cpp:209-240). */
module JpegSymbols {
  import opened Bits
  import opened PrefixCode
  import opened Canonical
  import opened JpegTables
  import opened JpegTreeSize
  import opened JpegLookup
  import opened JpegMinimum
  import opened JpegMoffat
  import opened JpegHeight
  import opened JpegDepths
  import opened JpegFibonacci
  import opened JpegLimit
  import opened JpegRadix
  import opened JpegCounts

  // ---- The symbols to sort ----

  /** The dummy symbol, then the symbols below n that occur; indices are one more than symbols. */
  function Used(counts: seq<nat>, n: nat): (s: seq<SymFreq>)
    requires n <= |counts|
    ensures 1 <= |s| <= n + 1 && s[0] == SymFreq(1, 0)
  {
    if n == 0 then [SymFreq(1, 0)]
    else Used(counts, n - 1) + if counts[n - 1] > 0 then [SymFreq(counts[n - 1], n)] else []
  }

  /** Symbol x is the dummy or belongs to a count. */
  ghost predicate FromCount(counts: seq<nat>, n: nat, x: SymFreq) {
    x == SymFreq(1, 0) || (1 <= x.sym_index <= n <= |counts| && x.key == counts[x.sym_index - 1] > 0)
  }

  lemma {:induction false} UsedShape(counts: seq<nat>, n: nat)
    requires n <= |counts|
    ensures forall x :: x in Used(counts, n) ==> FromCount(counts, n, x)
    ensures forall i, j :: 0 <= i < j < |Used(counts, n)| ==> Used(counts, n)[i].sym_index < Used(counts, n)[j].sym_index
  {
    if n > 0 {
      UsedShape(counts, n - 1);
      var front := Used(counts, n - 1);
      assert forall i :: 0 <= i < |front| ==> front[i] in front;
    }
  }

  lemma {:induction false} UsedAll(counts: seq<nat>, n: nat, s: nat)
    requires s < n <= |counts| && counts[s] > 0
    ensures SymFreq(counts[s], s + 1) in Used(counts, n)
  {
    if s < n - 1 { UsedAll(counts, n - 1, s); }
  }

  /** The symbols as the sort leaves them. */
  ghost predicate Ordered(counts: seq<nat>, n: nat, s: seq<SymFreq>) {
    && n <= |counts| && SortedByKey(s) && |s| >= 1 && s[0] == SymFreq(1, 0)
    && (forall i :: 0 < i < |s| ==> FromCount(counts, n, s[i]) && s[i].sym_index > 0)
    && forall a: nat {:trigger Listed(counts, s, a)} :: a < n && counts[a] > 0 ==> Listed(counts, s, a)
  }

  ghost predicate Listed(counts: seq<nat>, s: seq<SymFreq>, a: nat) {
    a < |counts| && exists i :: 0 < i < |s| && s[i] == SymFreq(counts[a], a + 1)
  }

  /** The dummy symbol stays first, as its key is the least possible one and the sort keeps the order of equal keys. */
  lemma SortedUsed(counts: seq<nat>, n: nat, s: seq<SymFreq>)
    requires n <= |counts| && SortedByKey(s) && multiset(s) == multiset(Used(counts, n))
    ensures Ordered(counts, n, s) && |s| == |Used(counts, n)|
  {
    hide Used;
    var dummy, used := SymFreq(1, 0), Used(counts, n);
    UsedShape(counts, n);
    assert |multiset(s)| == |multiset(used)|;
    forall i | 0 <= i < |s| ensures FromCount(counts, n, s[i]) {
      assert s[i] in multiset(s);
      assert s[i] in used;
    }
    assert used[0] in multiset(s);
    var k :| 0 <= k < |s| && s[k] == dummy;
    assert FromCount(counts, n, s[0]);
    forall a: nat | a < n && counts[a] > 0 ensures Listed(counts, s, a) {
      UsedAll(counts, n, a);
      assert SymFreq(counts[a], a + 1) in multiset(s);
      var i :| 0 <= i < |s| && s[i] == SymFreq(counts[a], a + 1);
    }
  }

  // ---- The table ----

  /** More frequent symbols do not have longer codes. */
  ghost predicate FrequentFirst(t: TableSpec, counts: seq<nat>) {
    (forall p :: 0 <= p < |t.val| ==> t.val[p] < |counts|)
    && forall p, q :: 0 <= p < q < |t.val| ==> counts[t.val[p]] >= counts[t.val[q]]
  }

  /**
   * A table for the symbols below n that occur: they have codes and no others do, frequent symbols come first,
   * no code consists of ones only, and the decoder's tree has room for the codes.
   */
  ghost predicate TableFor(t: TableSpec, counts: seq<nat>, n: nat) {
    && ValidTable(t) && n <= |counts|
    && CodesForCounted(t, counts, n) && (forall s: nat :: s in t.val ==> s < n && counts[s] > 0)
    && FrequentFirst(t, counts) && NoAllOnes(Sizes(t.bits)) && |Inner(Codes(Sizes(t.bits)))| <= 256
  }

  /** The symbols from the most frequent one down, without the dummy. */
  ghost predicate SymbolsFrom(val: seq<Byte>, s: seq<SymFreq>) {
    |val| == |s| - 1 && forall p :: 0 <= p < |val| ==> (val[p] as int) + 1 == s[|s| - 1 - p].sym_index
  }

  lemma DifferentIndices(counts: seq<nat>, n: nat, s: seq<SymFreq>, i: nat, j: nat)
    requires Ordered(counts, n, s) && 0 < i < j < |s|
    ensures s[i].sym_index != s[j].sym_index
  {
    assert FromCount(counts, n, s[i]) && FromCount(counts, n, s[j]);
  }

  lemma DistinctSymbols(counts: seq<nat>, n: nat, s: seq<SymFreq>, val: seq<Byte>)
    requires Ordered(counts, n, s) && SymbolsFrom(val, s)
    ensures Distinct(val)
  {
    hide FromCount, SortedByKey;
    forall p, q | 0 <= p < q < |val| ensures val[p] != val[q] { DifferentIndices(counts, n, s, |s| - 1 - q, |s| - 1 - p); }
  }

  lemma OrderedSymbols(counts: seq<nat>, n: nat, s: seq<SymFreq>, t: TableSpec)
    requires Ordered(counts, n, s) && SymbolsFrom(t.val, s)
    ensures FrequentFirst(t, counts) && forall a: nat :: a in t.val ==> a < n && counts[a] > 0
  {
    forall p | 0 <= p < |t.val| ensures t.val[p] < n && counts[t.val[p]] == s[|s| - 1 - p].key > 0 {
      assert FromCount(counts, n, s[|s| - 1 - p]);
    }
  }

  lemma AllHaveCodes(counts: seq<nat>, n: nat, s: seq<SymFreq>, t: TableSpec)
    requires Ordered(counts, n, s) && SymbolsFrom(t.val, s) && ValidTable(t) && n <= 256
    ensures CodesForCounted(t, counts, n)
  {
    hide ValidTable, SymbolCode, Ordered, SymbolsFrom;
    forall a: nat | a < n && a < |counts| && counts[a] > 0 ensures SymbolCode(t, a) != [] {
      var p := SymbolInTable(counts, n, s, t.val, a);
      SymbolCodeAt(t, p);
    }
  }

  lemma SymbolInTable(counts: seq<nat>, n: nat, s: seq<SymFreq>, val: seq<Byte>, a: nat) returns (p: nat)
    requires Ordered(counts, n, s) && SymbolsFrom(val, s) && a < n && a < |counts| && counts[a] > 0
    ensures p < |val| && val[p] == a
  {
    hide SortedByKey, FromCount;
    assert Listed(counts, s, a);
    var i :| 0 < i < |s| && s[i] == SymFreq(counts[a], a + 1);
    p := |s| - 1 - i;
  }

  /** With the sizes of a complete code without its last, and the symbols in order, the table is as it should be. */
  lemma TableMade(counts: seq<nat>, n: nat, s: seq<SymFreq>, bits: seq<Byte>, top: nat, val: seq<Byte>)
    requires Ordered(counts, n, s) && SymbolsFrom(val, s) && n <= 256 && 2 <= |s| <= 256
    requires LastLength(bits, top) && Limited(bits, |s|, 16)
    ensures TableFor(TableSpec(bits[top := bits[top] - 1], val), counts, n)
  {
    hide Ordered, Sizes, Codes, Inner, NoAllOnes, FittingLengths, SymbolCode, FrequentFirst, CodesForCounted, Limited;
    var t := TableSpec(bits[top := bits[top] - 1], val);
    WithoutLast(bits, top, |s|);
    DistinctSymbols(counts, n, s, val);
    assert ValidTable(t);
    OrderedSymbols(counts, n, s, t);
    AllHaveCodes(counts, n, s, t);
    OrderedBound(counts, n, s);
  }

  lemma OrderedBound(counts: seq<nat>, n: nat, s: seq<SymFreq>)
    requires Ordered(counts, n, s)
    ensures n <= |counts|
  {
  }

  /** A table without codes, if nothing occurs. */
  lemma EmptyTable(counts: seq<nat>, n: nat, s: seq<SymFreq>, bits: seq<Byte>)
    requires Ordered(counts, n, s) && |s| == 1 && n <= 256 && |bits| == 17 && forall i :: 1 <= i <= 16 ==> bits[i] == 0
    ensures TableFor(TableSpec(bits, []), counts, n)
  {
    hide Ordered, CodesForCounted, FrequentFirst;
    var t := TableSpec(bits, []);
    NoSizes(bits, 16);
    assert Sizes(bits) == [] && KraftTo([], 16, 16, 0) == 0;
    assert Codes([]) == [];
    assert Inner([]) == {};
    assert SymbolsFrom([], s);
    assert ValidTable(t);
    OrderedSymbols(counts, n, s, t);
    AllHaveCodes(counts, n, s, t);
    OrderedBound(counts, n, s);
  }

  lemma {:induction false} NoSizes(bits: seq<Byte>, l: nat)
    requires l < |bits| && forall i :: 1 <= i <= l ==> bits[i] == 0
    ensures SizesTo(bits, l) == []
  {
    if l > 0 { NoSizes(bits, l - 1); }
  }

  // ---- The sum of the keys ----

  lemma NoSum()
    ensures Sum([]) == 0
  {
  }

  lemma {:induction false} UsedSum(counts: seq<nat>, n: nat)
    requires n <= |counts|
    ensures Sum(Keys(Used(counts, n))) == 1 + Sum(counts[..n])
  {
    hide Sum;
    assert Sum([]) == 0 by { NoSum(); }
    if n == 0 {
      assert Keys(Used(counts, 0)) == [] + [1];
      SumPush([], 1);
    } else {
      UsedSum(counts, n - 1);
      var front := Used(counts, n - 1);
      assert counts[..n] == counts[..n - 1] + [counts[n - 1]];
      SumPush(counts[..n - 1], counts[n - 1]);
      if counts[n - 1] > 0 {
        assert Keys(Used(counts, n)) == Keys(front) + [counts[n - 1]];
        SumPush(Keys(front), counts[n - 1]);
      } else {
        assert Used(counts, n) == front;
      }
    }
  }

  /** Sorting keeps the sum. */
  lemma KeysApart(a: seq<SymFreq>, x: SymFreq, b: seq<SymFreq>)
    ensures Keys(a + [x] + b) == Keys(a) + [x.key] + Keys(b)
  {
  }

  lemma KeysTogether(a: seq<SymFreq>, b: seq<SymFreq>)
    ensures Keys(a + b) == Keys(a) + Keys(b)
  {
  }

  lemma NoKeys()
    ensures Keys([]) == []
  {
  }

  lemma {:induction false} SameKeySum(s: seq<SymFreq>, r: seq<SymFreq>)
    requires multiset(s) == multiset(r)
    ensures Sum(Keys(s)) == Sum(Keys(r))
    decreases |s|
  {
    hide Sum, Keys;
    if s == [] {
      assert |multiset(r)| == 0;
      assert r == s;
    } else {
      var k := WhereIsLast(s, r);
      var front, last := s[..|s| - 1], s[|s| - 1];
      var a, b := r[..k], r[k + 1..];
      SameKeySum(front, a + b);
      KeysApart(front, last, []);
      KeysApart(a, last, b);
      KeysTogether(a, b);
      NoKeys();
      assert s == front + [last] + [] && r == a + [last] + b && Keys(front) + [last.key] + [] == Keys(front) + [last.key];
      SumPush(Keys(front), last.key);
      SumPush(Keys(a), last.key);
      SumJoin(Keys(a), Keys(b));
      SumJoin(Keys(a) + [last.key], Keys(b));
    }
  }

  lemma {:induction false} SameKeys(s: seq<SymFreq>, r: seq<SymFreq>)
    requires multiset(s) == multiset(r)
    ensures multiset(Keys(s)) == multiset(Keys(r))
    decreases |s|
  {
    if s == [] {
      assert |multiset(r)| == 0;
      assert r == s;
    } else {
      var k := WhereIsLast(s, r);
      var front, last := s[..|s| - 1], s[|s| - 1];
      var a, b := r[..k], r[k + 1..];
      SameKeys(front, a + b);
      assert Keys(s) == Keys(front) + [last.key] && Keys(a + b) == Keys(a) + Keys(b);
      assert Keys(r) == Keys(a) + [last.key] + Keys(b);
    }
  }

  /** The longest code length, dummy included, before lengths are limited: 0 if nothing occurs. */
  function CodeHeight(counts: seq<nat>, n: nat): nat
    requires n <= |counts|
  {
    TreeHeight(SortedCopy(Keys(Used(counts, n))), [])
  }

  lemma HeightOfSorted(counts: seq<nat>, n: nat, s: seq<SymFreq>)
    requires n <= |counts| && SortedByKey(s) && multiset(s) == multiset(Used(counts, n))
    ensures |s| > 0 && TreeHeight(Keys(s), []) == CodeHeight(counts, n)
  {
    hide TreeHeight, Used, SortedCopy, SortedByKey, Sorted;
    var used := Used(counts, n);
    assert |s| == |multiset(s)| == |multiset(used)| == |used|;
    SameKeys(s, used);
    KeysSorted(s);
    SortedSame(Keys(s), SortedCopy(Keys(used)), multiset(Keys(s)));
  }

  lemma OrderedKeys(counts: seq<nat>, n: nat, s: seq<SymFreq>)
    requires Ordered(counts, n, s)
    ensures forall i :: 0 <= i < |s| ==> Keys(s)[i] >= 1
  {
    hide SortedByKey, Listed;
    forall i | 0 <= i < |s| ensures s[i].key >= 1 { assert i > 0 ==> FromCount(counts, n, s[i]); }
  }

  // ---- Lengths and their counts ----

  function Keys(s: seq<SymFreq>): (k: seq<nat>)
    ensures |k| == |s| && forall i :: 0 <= i < |k| ==> k[i] == s[i].key
  {
    seq(|s|, i requires 0 <= i < |s| => s[i].key)
  }

  lemma KeysSorted(s: seq<SymFreq>)
    requires SortedByKey(s)
    ensures Sorted(Keys(s))
  {
  }

  /** num[v] of the lengths are v. */
  ghost predicate CountsOf(num: seq<nat>, l: seq<nat>) {
    |num| == 33 && forall v :: 0 <= v <= 32 ==> num[v] == CountTo(l, v, |l|)
  }

  lemma {:induction false} CountFront(l: seq<nat>, v: nat, n: nat, m: nat)
    requires n <= m <= |l|
    ensures CountTo(l[..m], v, n) == CountTo(l, v, n)
  {
    if n > 0 { CountFront(l, v, n - 1, m); }
  }

  lemma CountsStep(num: seq<nat>, l: seq<nat>, i: nat)
    requires i < |l| && CountsOf(num, l[..i]) && l[i] <= 32
    ensures CountsOf(num[l[i] := num[l[i]] + 1], l[..i + 1])
  {
    var upTo := l[..i + 1];
    forall v: nat | v <= 32 ensures CountTo(upTo, v, i + 1) == CountTo(l[..i], v, i) + B2N(l[i] == v) {
      CountFront(upTo, v, i, i);
      assert upTo[..i] == l[..i];
    }
  }

  /** The Kraft sum of the lengths is that of their counts. */
  lemma {:induction false} CountsKraft(num: seq<nat>, l: seq<nat>)
    requires CountsOf(num, l) && AtMost(l, 32) && forall i :: 0 <= i < |l| ==> l[i] >= 1
    ensures KraftOf(num, 32, 32) == Kraft(l, 32) && CodeCount(num, 32) == |l|
    decreases |l|
  {
    hide KraftOf, CodeCount;
    if l == [] {
      NoCounts(num, 32);
    } else {
      var n := |l| - 1;
      var less := num[l[n] := CountTo(l, l[n], n)];
      forall v: nat | v <= 32 ensures less[v] == CountTo(l[..n], v, n) { CountFront(l, v, n, n); }
      CountsKraft(less, l[..n]);
      KraftOfUpdate(num, l[n], CountTo(l, l[n], n), 32, 32);
      OneMoreTimes(less[l[n]], Pow2(32 - l[n]));
    }
  }

  lemma OneMoreTimes(n: nat, p: nat)
    ensures (n + 1) * p == n * p + p
  {
  }

  lemma {:induction false} NoCounts(num: seq<nat>, top: nat)
    requires top < |num| && top <= 32 && forall i :: 0 <= i <= top ==> num[i] == 0
    ensures KraftOf(num, top, 32) == 0 && CodeCount(num, top) == 0
  {
    if top > 0 { NoCounts(num, top - 1); }
  }

  lemma {:induction false} KraftScale(l: seq<nat>, m: nat, k: nat)
    requires AtMost(l, m)
    ensures AtMost(l, m + k) && Kraft(l, m + k) == Kraft(l, m) * Pow2(k)
  {
    if l != [] {
      KraftScale(l[..|l| - 1], m, k);
      Pow2Add(m - l[|l| - 1], k);
      assert m + k - l[|l| - 1] == m - l[|l| - 1] + k;
      AddTimes(Kraft(l[..|l| - 1], m), Pow2(m - l[|l| - 1]), Pow2(k));
    }
  }

  /** A complete code is complete in any unit. */
  lemma CompleteAt32(l: seq<nat>)
    requires AtMost(l, |l|) && Kraft(l, |l|) == Pow2(|l|) && AtMost(l, 32)
    ensures Kraft(l, 32) == Pow2(32)
  {
    hide Kraft;
    if |l| <= 32 {
      KraftScale(l, |l|, 32 - |l|);
      Pow2Add(|l|, 32 - |l|);
    } else {
      KraftScale(l, 32, |l| - 32);
      Pow2Add(32, |l| - 32);
      CancelMul(Kraft(l, 32), Pow2(32), Pow2(|l| - 32));
      CancelMul(Pow2(32), Kraft(l, 32), Pow2(|l| - 32));
    }
  }

  function Reverse(l: seq<nat>): (r: seq<nat>)
    ensures |r| == |l|
  {
    if l == [] then [] else Reverse(l[1..]) + [l[0]]
  }

  /** Descending lengths, counted and listed by their counts, come out in reverse. */
  lemma {:induction false} SizesReverse(bits: seq<Byte>, l: seq<nat>)
    requires |bits| == 17 && (forall i :: 0 <= i < |l| ==> 1 <= l[i] <= 16) && Descending(l)
    requires forall v :: 1 <= v <= 16 ==> bits[v] == CountTo(l, v, |l|)
    ensures Sizes(bits) == Reverse(l)
    decreases |l|
  {
    if l == [] {
      NoSizes(bits, 16);
    } else {
      var rest, top := l[1..], l[0];
      forall v: nat | 1 <= v <= 16 ensures CountTo(l, v, |l|) == B2N(v == top) + CountTo(rest, v, |rest|) { CountFirst(l, v, |l|); }
      forall v: nat | top < v <= 16 ensures bits[v] == 0 { NoneOf(l, v, |l|); }
      LastRemoved(bits, top);
      SizesReverse(bits[top := bits[top] - 1], rest);
    }
  }

  lemma {:induction false} CountFirst(l: seq<nat>, v: nat, n: nat)
    requires 1 <= n <= |l|
    ensures CountTo(l, v, n) == B2N(l[0] == v) + CountTo(l[1..], v, n - 1)
  {
    if n > 1 { CountFirst(l, v, n - 1); }
  }

  lemma {:induction false} NoneOf(l: seq<nat>, v: nat, n: nat)
    requires n <= |l| && forall i :: 0 <= i < n ==> l[i] != v
    ensures CountTo(l, v, n) == 0
  {
    if n > 0 { NoneOf(l, v, n - 1); }
  }

  /** num_codes has room for the lengths up to 32; a longer one would be counted outside of it. */
  method CountLengths(keys: array<nat>) returns (ok: bool, num_codes: array<nat>)
    ensures fresh(num_codes) && num_codes.Length == 33
    ensures ok <==> AtMost(keys[..], 32)
    ensures ok ==> CountsOf(num_codes[..], keys[..])
  {
    hide CountsOf;
    num_codes := new nat[1 + MAX_HUFF_CODESIZE](_ => 0);
    ok := true;
    NothingCounted(num_codes[..]);
    for i := 0 to keys.Length
      invariant AtMost(keys[..i], 32) && CountsOf(num_codes[..], keys[..i])
    {
      if keys[i] > MAX_HUFF_CODESIZE {
        assert keys[..][i] == keys[i];
        ok := false;
        return;
      }
      CountsStep(num_codes[..], keys[..], i);
      assert keys[..][..i] == keys[..i] && keys[..][..i + 1] == keys[..i + 1];
      ghost var was := num_codes[..];
      num_codes[keys[i]] := num_codes[keys[i]] + 1;
      assert num_codes[..] == was[keys[i] := was[keys[i]] + 1];
    }
    assert keys[..keys.Length] == keys[..];
  }

  lemma NothingCounted(num: seq<nat>)
    requires |num| == 33 && forall i :: 0 <= i < 33 ==> num[i] == 0
    ensures CountsOf(num, [])
  {
  }
}
