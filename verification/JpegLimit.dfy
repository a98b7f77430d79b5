/** Limiting the lengths of a code (compositor/jpge.cpp:185-204). */
module JpegLimit {
  import opened Bits
  import opened Canonical
  import opened JpegMinimum

  const MAX_HUFF_CODESIZE: nat := 32

  /** The Kraft sum, in units of 2^-m, of num[i] codes of every length i up to top. */
  function KraftOf(num: seq<nat>, top: nat, m: nat): nat
    requires top < |num| && top <= m
  {
    if top == 0 then 0 else KraftOf(num, top - 1, m) + num[top] * Pow2(m - top)
  }

  /** How many codes there are of the lengths up to top. */
  function CodeCount(num: seq<nat>, top: nat): nat
    requires top < |num|
  {
    if top == 0 then 0 else CodeCount(num, top - 1) + num[top]
  }

  lemma {:induction false} KraftOfScale(num: seq<nat>, top: nat, m: nat, k: nat)
    requires top < |num| && top <= m
    ensures KraftOf(num, top, m + k) == KraftOf(num, top, m) * Pow2(k)
  {
    if top > 0 {
      KraftOfScale(num, top - 1, m, k);
      Pow2Add(m - top, k);
      assert m + k - top == m - top + k;
      ScaleSum(KraftOf(num, top - 1, m), num[top], Pow2(m - top), Pow2(k));
    }
  }

  lemma ScaleSum(a: nat, n: nat, p: nat, q: nat)
    ensures a * q + n * (p * q) == (a + n * p) * q
  {
  }

  lemma {:induction false} KraftOfPrefix(num: seq<nat>, num': seq<nat>, top: nat, m: nat)
    requires top < |num| && top < |num'| && top <= m && forall i :: 1 <= i <= top ==> num[i] == num'[i]
    ensures KraftOf(num, top, m) == KraftOf(num', top, m) && CodeCount(num, top) == CodeCount(num', top)
  {
    if top > 0 { KraftOfPrefix(num, num', top - 1, m); }
  }

  /** Codes longer than m weigh at most as much as codes of length m. */
  lemma {:induction false} LongCodes(num: seq<nat>, m: nat, top: nat)
    requires m <= top < |num| && top <= 32
    ensures KraftOf(num, top, 32) <= KraftOf(num, m, 32) + (CodeCount(num, top) - CodeCount(num, m)) * Pow2(32 - m)
    ensures CodeCount(num, m) <= CodeCount(num, top)
  {
    if m < top {
      LongCodes(num, m, top - 1);
      Pow2Monotone(32 - top, 32 - m);
      MoreCodes(CodeCount(num, top - 1) - CodeCount(num, m), num[top], Pow2(32 - top), Pow2(32 - m));
    }
  }

  lemma MoreCodes(c: nat, n: nat, p: nat, q: nat)
    requires p <= q
    ensures c * q + n * p <= (c + n) * q
  {
    assert n * p <= n * q;
  }

  lemma {:induction false} AllLong(num: seq<nat>, top: nat, m: nat)
    requires top < |num| && top <= m
    ensures (forall i :: 1 <= i <= top ==> num[i] == 0) ==> KraftOf(num, top, m) == 0 && CodeCount(num, top) == 0
  {
    if top > 0 { AllLong(num, top - 1, m); }
  }

  /** Changing the number of codes of one length. */
  lemma {:induction false} KraftOfUpdate(num: seq<nat>, i: nat, v: nat, top: nat, m: nat)
    requires 1 <= i < |num| && top < |num| && top <= m
    ensures i > top ==> KraftOf(num[i := v], top, m) == KraftOf(num, top, m) && CodeCount(num[i := v], top) == CodeCount(num, top)
    ensures i <= top ==>
      && KraftOf(num[i := v], top, m) + num[i] * Pow2(m - i) == KraftOf(num, top, m) + v * Pow2(m - i)
      && CodeCount(num[i := v], top) + num[i] == CodeCount(num, top) + v
  {
    if top > 0 { KraftOfUpdate(num, i, v, top - 1, m); }
  }

  /** A complete code before and after limiting: as many codes, all non-negative, Kraft sum one. */
  ghost predicate Limited(num: seq<nat>, count: nat, m: nat) {
    m < |num| && CodeCount(num, m) == count && KraftOf(num, m, m) == Pow2(m)
  }

  /** The state of the loop: the Kraft sum is `total`, and without the codes of length m it is no more than one. */
  ghost predicate TooLong(num: seq<nat>, count: nat, m: nat, total: nat) {
    && 1 <= m < |num| && CodeCount(num, m) == count <= Pow2(m)
    && KraftOf(num, m, m) == total >= Pow2(m) && KraftOf(num, m - 1, m) <= Pow2(m)
  }

  /** No code is longer than m. */
  ghost predicate NoLongCodes(num: seq<nat>, m: nat) { forall i :: m < i < |num| ==> num[i] == 0 }

  lemma {:induction false} NothingBehind(num: seq<nat>, m: nat, top: nat)
    requires m <= top < |num| && top <= 32 && NoLongCodes(num, m)
    ensures CodeCount(num, top) == CodeCount(num, m) && KraftOf(num, top, 32) == KraftOf(num, m, 32)
  {
    if m < top { NothingBehind(num, m, top - 1); }
  }

  /** Then there is nothing to do. */
  lemma NothingTooLong(num: seq<nat>, m: nat, count: nat)
    requires |num| == 33 && 1 <= m <= 32 && KraftOf(num, 32, 32) == Pow2(32) && CodeCount(num, 32) == count && NoLongCodes(num, m)
    ensures CodeCount(num, m) == count && KraftOf(num, m, m) == Pow2(m)
  {
    hide KraftOf, CodeCount, NoLongCodes;
    NothingBehind(num, m, 32);
    KraftOfScale(num, m, m, 32 - m);
    Pow2Add(m, 32 - m);
    CancelMul(KraftOf(num, m, m), Pow2(m), Pow2(32 - m));
    CancelMul(Pow2(m), KraftOf(num, m, m), Pow2(32 - m));
  }

  /** Putting the codes that are too long at the limit. */
  lemma Folded(num: seq<nat>, m: nat, count: nat)
    requires |num| == 33 && 1 <= m <= 32 && KraftOf(num, 32, 32) == Pow2(32) && CodeCount(num, 32) == count <= Pow2(m)
    ensures CodeCount(num, m) <= count
    ensures
      var folded := num[m := num[m] + (count - CodeCount(num, m))];
      TooLong(folded, count, m, KraftOf(folded, m, m))
  {
    hide KraftOf, CodeCount, Pow2;
    LongCodes(num, m, 32);
    var extra := count - CodeCount(num, m);
    var folded := num[m := num[m] + extra];
    KraftOfUpdate(num, m, num[m] + extra, m, m);
    KraftOfUpdate(num, m, num[m] + extra, m - 1, m);
    KraftOfScale(num, m, m, 32 - m);
    KraftOfScale(num, m - 1, m, 32 - m);
    LongCodes(num, m - 1, m);
    Pow2Add(m, 32 - m);
    KraftMonotone(num, m - 1, 32);
    CancelMul(KraftOf(num, m - 1, m), Pow2(m), Pow2(32 - m));
    AddTimesPower(KraftOf(num, m, m), extra, Pow2(32 - m));
    CancelMul(Pow2(m), KraftOf(num, m, m) + extra, Pow2(32 - m));
    LastPower(num[m], extra, m);
  }

  lemma LastPower(a: nat, b: nat, m: nat)
    ensures Pow2(m - m) == 1 && (a + b) * Pow2(m - m) == a * Pow2(m - m) + b
  {
  }

  lemma AddTimesPower(a: nat, b: nat, p: nat)
    ensures (a + b) * p == a * p + b * p
  {
  }

  lemma {:induction false} KraftMonotone(num: seq<nat>, a: nat, b: nat)
    requires a <= b < |num| && b <= 32
    ensures KraftOf(num, a, 32) <= KraftOf(num, b, 32)
  {
    if a < b { KraftMonotone(num, a, b - 1); }
  }

  /** While the sum is too large there is a code at the limit, and a shorter one. */
  lemma CanShorten(num: seq<nat>, count: nat, m: nat, total: nat)
    requires TooLong(num, count, m, total) && total > Pow2(m)
    ensures num[m] >= 1 && exists i :: 1 <= i < m && num[i] != 0
  {
    LastPower(num[m], 0, m);
    AllLong(num, m - 1, m);
  }

  /** One step: a code at the limit and a shorter one become two codes that are a bit longer than the shorter one. */
  lemma StepLimited(num: seq<nat>, count: nat, m: nat, total: nat, i: nat)
    requires TooLong(num, count, m, total) && total > Pow2(m) && 1 <= i < m && num[i] != 0 && num[m] >= 1
    ensures
      var a := num[m := num[m] - 1];
      var b := a[i := a[i] - 1];
      TooLong(b[i + 1 := b[i + 1] + 2], count, m, total - 1)
  {
    hide KraftOf, CodeCount;
    var a := num[m := num[m] - 1];
    var b := a[i := a[i] - 1];
    var c := b[i + 1 := b[i + 1] + 2];
    KraftOfUpdate(num, m, num[m] - 1, m, m);
    KraftOfUpdate(num, m, num[m] - 1, m - 1, m);
    KraftOfUpdate(a, i, a[i] - 1, m, m);
    KraftOfUpdate(a, i, a[i] - 1, m - 1, m);
    KraftOfUpdate(b, i + 1, b[i + 1] + 2, m, m);
    KraftOfUpdate(b, i + 1, b[i + 1] + 2, m - 1, m);
    LastPower(num[m], 0, m);
    OneLessTimes(num[m], Pow2(m - m));
    OneLessTimes(a[i], Pow2(m - i));
    TwoMoreTimes(b[i + 1], Pow2(m - (i + 1)));
    assert Pow2(m - i) == 2 * Pow2(m - (i + 1));
  }

  lemma OneLessTimes(n: nat, p: nat)
    requires n >= 1
    ensures (n - 1) * p + p == n * p
  {
  }

  lemma TwoMoreTimes(n: nat, p: nat)
    ensures (n + 2) * p == n * p + 2 * p
  {
  }

  /** Codes only get longer: below the limit no prefix of the lengths has a larger Kraft sum than before. */
  ghost predicate NoShorter(before: seq<nat>, now: seq<nat>, m: nat) {
    && m < |before| && m < |now|
    && forall k: nat {:trigger KraftOf(now, k, m)} :: k < m ==> KraftOf(now, k, m) <= KraftOf(before, k, m)
  }

  lemma StepNoShorter(before: seq<nat>, num: seq<nat>, m: nat, i: nat)
    requires NoShorter(before, num, m) && 1 <= i < m && num[i] != 0 && num[m] >= 1
    ensures
      var a := num[m := num[m] - 1];
      var b := a[i := a[i] - 1];
      NoShorter(before, b[i + 1 := b[i + 1] + 2], m)
  {
    hide KraftOf, CodeCount;
    var a := num[m := num[m] - 1];
    var b := a[i := a[i] - 1];
    var c := b[i + 1 := b[i + 1] + 2];
    forall k: nat | k < m ensures KraftOf(c, k, m) <= KraftOf(before, k, m) {
      KraftOfUpdate(num, m, num[m] - 1, k, m);
      KraftOfUpdate(a, i, a[i] - 1, k, m);
      KraftOfUpdate(b, i + 1, b[i + 1] + 2, k, m);
      OneLessTimes(a[i], Pow2(m - i));
      TwoMoreTimes(b[i + 1], Pow2(m - (i + 1)));
      assert Pow2(m - i) == 2 * Pow2(m - (i + 1));
      assert KraftOf(num, k, m) <= KraftOf(before, k, m);
    }
  }

  lemma FoldNoShorter(before: seq<nat>, m: nat, v: nat)
    requires 1 <= m < |before|
    ensures NoShorter(before, before[m := v], m)
  {
    hide KraftOf, CodeCount;
    forall k: nat | k < m ensures KraftOf(before[m := v], k, m) == KraftOf(before, k, m) { KraftOfUpdate(before, m, v, k, m); }
  }

  /** Adds up the Kraft sum of the lengths up to m. */
  method KraftTotal(pNum_codes: array<nat>, m: nat) returns (total: nat)
    requires m < pNum_codes.Length
    ensures total == KraftOf(pNum_codes[..], m, m)
  {
    hide KraftOf, Pow2;
    ghost var num := pNum_codes[..];
    total := 0;
    for i := m + 1 downto 1
      invariant total + KraftOf(num, i - 1, m) == KraftOf(num, m, m)
    {
      KraftNext(num, i, m);
      total := total + pNum_codes[i] * Pow2(m - i);
    }
    KraftNone(num, m);
  }

  /** One step of the loop: a code at the limit goes, and the longest code below the limit is split. */
  method ShortenOne(pNum_codes: array<nat>, m: nat, ghost count: nat, ghost total: nat, ghost before: seq<nat>)
    requires 1 <= m < pNum_codes.Length && TooLong(pNum_codes[..], count, m, total) && total > Pow2(m)
    requires NoShorter(before, pNum_codes[..], m)
    modifies pNum_codes
    ensures TooLong(pNum_codes[..], count, m, total - 1) && NoShorter(before, pNum_codes[..], m)
  {
    hide KraftOf, CodeCount, TooLong, Pow2, NoShorter;
    ghost var was := pNum_codes[..];
    CanShorten(was, count, m, total);
    pNum_codes[m] := pNum_codes[m] - 1;
    var i := m - 1;
    while pNum_codes[i] == 0
      invariant 1 <= i < m && pNum_codes[..] == was[m := was[m] - 1]
      invariant exists k :: 1 <= k <= i && was[k] != 0
      decreases i
    {
      i := i - 1;
    }
    StepLimited(was, count, m, total, i);
    StepNoShorter(before, was, m, i);
    pNum_codes[i] := pNum_codes[i] - 1;
    pNum_codes[i + 1] := pNum_codes[i + 1] + 2;
    ghost var a := was[m := was[m] - 1];
    ghost var b := a[i := a[i] - 1];
    assert pNum_codes[..] == b[i + 1 := b[i + 1] + 2];
  }

  /**
   * huffman_enforce_max_code_size: the counts of a complete code become those of a complete code whose
   * lengths do not exceed the limit. No count gets negative, no code is lost, and codes only get longer.
   */
  method EnforceMaxCodeSize(pNum_codes: array<nat>, code_list_len: nat, max_code_size: nat)
    requires pNum_codes.Length == 33 && 1 <= max_code_size <= 32
    requires code_list_len > 1 ==>
      && KraftOf(pNum_codes[..], 32, 32) == Pow2(32) && CodeCount(pNum_codes[..], 32) == code_list_len <= Pow2(max_code_size)
    modifies pNum_codes
    ensures code_list_len <= 1 ==> pNum_codes[..] == old(pNum_codes[..])
    ensures code_list_len > 1 ==>
      Limited(pNum_codes[..], code_list_len, max_code_size) && NoShorter(old(pNum_codes[..]), pNum_codes[..], max_code_size)
    ensures code_list_len > 1 && NoLongCodes(old(pNum_codes[..]), max_code_size) ==> pNum_codes[..] == old(pNum_codes[..])
  {
    hide KraftOf, CodeCount, TooLong, Pow2, NoLongCodes, NoShorter;
    if code_list_len <= 1 { return; }
    var m := max_code_size;
    ghost var before := pNum_codes[..];
    if NoLongCodes(before, m) { NothingTooLong(before, m, code_list_len); }
    for i := m + 1 to MAX_HUFF_CODESIZE + 1
      invariant m + 1 <= i <= 33 && CodeCount(before, m) <= CodeCount(before, i - 1)
      invariant pNum_codes[..] == before[m := before[m] + (CodeCount(before, i - 1) - CodeCount(before, m))]
    {
      CountNext(before, i);
      ghost var was := pNum_codes[..];
      pNum_codes[m] := pNum_codes[m] + pNum_codes[i];
      assert pNum_codes[..] == was[m := was[m] + was[i]];
    }
    Folded(before, m, code_list_len);
    FoldNoShorter(before, m, pNum_codes[m]);
    var total: nat := KraftTotal(pNum_codes, m);
    TotalAtLeast(pNum_codes[..], code_list_len, m, total);
    while total != Pow2(m)
      invariant TooLong(pNum_codes[..], code_list_len, m, total) && total >= Pow2(m) && NoShorter(before, pNum_codes[..], m)
      invariant NoLongCodes(before, m) ==> total == Pow2(m) && pNum_codes[..] == before
      decreases total
    {
      ShortenOne(pNum_codes, m, code_list_len, total, before);
      total := total - 1;
    }
    LimitReached(pNum_codes[..], code_list_len, m, total);
  }

  lemma CountNext(num: seq<nat>, i: nat)
    requires 1 <= i < |num|
    ensures CodeCount(num, i) == CodeCount(num, i - 1) + num[i]
  {
  }

  lemma KraftNext(num: seq<nat>, i: nat, m: nat)
    requires 1 <= i < |num| && i <= m
    ensures KraftOf(num, i, m) == KraftOf(num, i - 1, m) + num[i] * Pow2(m - i)
  {
  }

  lemma KraftNone(num: seq<nat>, m: nat)
    requires |num| > 0
    ensures KraftOf(num, 0, m) == 0
  {
  }

  lemma TotalAtLeast(num: seq<nat>, count: nat, m: nat, total: nat)
    requires TooLong(num, count, m, total)
    ensures total >= Pow2(m)
  {
  }

  lemma LimitReached(num: seq<nat>, count: nat, m: nat, total: nat)
    requires TooLong(num, count, m, total) && total == Pow2(m)
    ensures Limited(num, count, m)
  {
  }
}
