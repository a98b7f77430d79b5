/** When all 256 codes get 8 bits: the one case in which a count of codes does not fit into a byte (compositor/jpge.cpp:217-229). */
module JpegLevel {
  import opened Bits
  import opened Canonical
  import opened JpegTables
  import opened JpegMinimum
  import opened JpegMoffat
  import opened JpegDepths
  import opened JpegLimit
  import opened JpegRadix
  import opened JpegSymbols

  // ---- A count of 256 ----

  lemma {:induction false} OnlyOne(num: seq<nat>, i: nat, top: nat, m: nat)
    requires 1 <= i < |num| && top < |num| && top <= m && forall k :: 1 <= k <= top && k != i ==> num[k] == 0
    ensures KraftOf(num, top, m) == if i <= top then num[i] * Pow2(m - i) else 0
  {
    if top > 0 { OnlyOne(num, i, top - 1, m); }
  }

  lemma {:induction false} OthersCount(num: seq<nat>, i: nat, k: nat, top: nat)
    requires 1 <= i <= top < |num| && 1 <= k <= top && i != k
    ensures num[i] + num[k] <= CodeCount(num, top)
  {
    if i < top && k < top {
      OthersCount(num, i, k, top - 1);
    } else if i < top {
      CountAtMost(num, i, top - 1);
    } else {
      CountAtMost(num, k, top - 1);
    }
  }

  lemma {:induction false} CountAtMost(num: seq<nat>, i: nat, top: nat)
    requires 1 <= i <= top < |num|
    ensures num[i] <= CodeCount(num, top)
  {
    if i < top { CountAtMost(num, i, top - 1); }
  }

  /** If 256 codes with a Kraft sum of one are not all of one length, every count fits into a byte; if they are, the length is 8. */
  lemma FullCount(num: seq<nat>, i: nat)
    requires |num| >= 17 && Limited(num, 256, 16) && 1 <= i <= 16 && num[i] >= 256
    ensures i == 8 && num[8] == 256 && KraftOf(num, 8, 16) == Pow2(16)
  {
    hide KraftOf, CodeCount, Pow2;
    CountAtMost(num, i, 16);
    forall k: nat | 1 <= k <= 16 && k != i ensures num[k] == 0 { OthersCount(num, i, k, 16); }
    OnlyOne(num, i, 16, 16);
    OnlyOne(num, i, 8, 16);
    Pow2Add(8, 16 - i);
    PowerOfEight();
    if i < 8 { Pow2Monotone(17, 24 - i); }
    if i > 8 { Pow2Monotone(24 - i, 15); }
  }

  lemma PowerOfEight()
    ensures Pow2(8) == 256 && Pow2(15) < Pow2(16) < Pow2(17)
  {
  }

  /** A length above a is missing from the Kraft sum up to a. */
  lemma {:induction false} KraftStrict(num: seq<nat>, a: nat, b: nat, i: nat)
    requires a < i <= b < |num| && b <= 32 && num[i] > 0
    ensures KraftOf(num, a, 32) < KraftOf(num, b, 32)
  {
    hide Pow2;
    if i == b {
      KraftMonotone(num, a, b - 1);
      SomeShare(num[b], Pow2(32 - b));
    } else {
      KraftStrict(num, a, b - 1, i);
    }
  }

  lemma SomeShare(n: nat, p: nat)
    requires n > 0 && p > 0
    ensures n * p > 0
  {
  }

  /** Codes that are limited to one length of 8 had that length before. */
  lemma LevelBefore(before: seq<nat>, num: seq<nat>)
    requires |before| == 33 && |num| == 33 && KraftOf(before, 32, 32) == Pow2(32)
    requires NoShorter(before, num, 16) && KraftOf(num, 8, 16) == Pow2(16)
    ensures NoLongCodes(before, 8)
  {
    hide KraftOf, CodeCount, Pow2;
    KraftOfScale(before, 8, 16, 16);
    Pow2Add(16, 16);
    MulMonotone(Pow2(16), KraftOf(before, 8, 16), Pow2(16));
    forall i: nat | 8 < i < 33 ensures before[i] == 0 {
      if before[i] > 0 { KraftStrict(before, 8, 32, i); }
    }
  }

  lemma {:induction false} AllCounted(l: seq<nat>, v: nat, n: nat)
    requires n <= |l|
    ensures CountTo(l, v, n) <= n && (CountTo(l, v, n) == n <==> forall i :: 0 <= i < n ==> l[i] == v)
  {
    if n > 0 { AllCounted(l, v, n - 1); }
  }

  /** A count is cut exactly if all lengths are 8. */
  lemma CutExactlyIfLevel(l: seq<nat>, before: seq<nat>, num: seq<nat>)
    requires |l| == 256 && AtMost(l, 32) && CountsOf(before, l) && KraftOf(before, 32, 32) == Pow2(32)
    requires |num| == 33 && Limited(num, 256, 16) && NoShorter(before, num, 16)
    requires NoLongCodes(before, 16) ==> num == before
    ensures (forall i :: 1 <= i <= 16 ==> num[i] < 256) <==> !AllAre(l, 8)
  {
    hide KraftOf, CodeCount, Pow2, Limited, NoShorter;
    AllCounted(l, 8, 256);
    if AllAre(l, 8) {
      forall i | 16 < i < 33 ensures before[i] == 0 { NoneOf(l, i, 256); }
    }
    if i: nat :| 1 <= i <= 16 && num[i] >= 256 { CutMeansLevel(l, before, num, i); }
  }

  lemma CutMeansLevel(l: seq<nat>, before: seq<nat>, num: seq<nat>, i: nat)
    requires |l| == 256 && CountsOf(before, l) && KraftOf(before, 32, 32) == Pow2(32)
    requires |num| == 33 && Limited(num, 256, 16) && NoShorter(before, num, 16) && 1 <= i <= 16 && num[i] >= 256
    requires NoLongCodes(before, 16) ==> num == before
    ensures AllAre(l, 8)
  {
    hide KraftOf, CodeCount, Pow2, Limited, NoShorter;
    FullCount(num, i);
    LevelBefore(before, num);
    AllCounted(l, 8, 256);
  }

  // ---- The condition on the counts ----

  /** Any two counts of symbols that occur differ by at most one. */
  predicate CountsClose(counts: seq<nat>, n: nat) {
    n <= |counts| && forall a, b :: 0 <= a < n && 0 <= b < n && counts[a] > 0 && counts[b] > 0 ==> counts[a] <= counts[b] + 1
  }

  /** Of 256 sorted symbols the largest key is at most the two smallest together exactly if the counts are close. */
  lemma CloseIsLeavesFirst(counts: seq<nat>, n: nat, s: seq<SymFreq>)
    requires Ordered(counts, n, s) && |s| == 256
    ensures LeavesFirst(Keys(s)) <==> CountsClose(counts, n)
  {
    hide FromCount, Listed;
    var w := Keys(s);
    KeysOrdered(s);
    if LeavesFirst(w) {
      forall a: nat, b: nat | a < n && b < n && counts[a] > 0 && counts[b] > 0 ensures counts[a] <= counts[b] + 1 {
        var i := WhereListed(counts, n, s, a);
        var j := WhereListed(counts, n, s, b);
      }
    }
    if CountsClose(counts, n) {
      CountOfKey(counts, n, s, 1);
      CountOfKey(counts, n, s, 255);
    }
  }

  lemma KeysOrdered(s: seq<SymFreq>)
    requires SortedByKey(s)
    ensures forall i, j :: 0 <= i <= j < |s| ==> s[i].key <= s[j].key
  {
  }

  lemma WhereListed(counts: seq<nat>, n: nat, s: seq<SymFreq>, a: nat) returns (i: nat)
    requires Ordered(counts, n, s) && a < n && counts[a] > 0
    ensures 0 < i < |s| && s[i].key == counts[a]
  {
    hide FromCount, SortedByKey;
    assert Listed(counts, s, a);
    i :| 0 < i < |s| && s[i] == SymFreq(counts[a], a + 1);
  }

  lemma CountOfKey(counts: seq<nat>, n: nat, s: seq<SymFreq>, i: nat)
    requires Ordered(counts, n, s) && 0 < i < |s|
    ensures 1 <= s[i].sym_index <= n <= |counts| && s[i].key == counts[s[i].sym_index - 1] > 0
  {
    hide Listed, SortedByKey;
    assert FromCount(counts, n, s[i]);
  }
}
