/** The canonical code of RFC 1951 section 3.2.2, and why a Kraft sum of one makes it a complete prefix code. */
module Canonical {
  import opened Bits
  import opened PrefixCode

  /** How many symbols below n have code length l. */
  function CountUpTo(lengths: seq<nat>, l: nat, n: nat): nat
    requires n <= |lengths|
  {
    if n == 0 then 0 else CountUpTo(lengths, l, n - 1) + B2N(lengths[n - 1] == l)
  }

  lemma {:induction false} CountConcat(a: seq<nat>, b: seq<nat>, s: nat, n: nat)
    requires n <= |b|
    ensures CountUpTo(a + b, s, |a| + n) == CountUpTo(a, s, |a|) + CountUpTo(b, s, n)
  {
    if n == 0 {
      CountPrefix(a, b, s, |a|);
    } else {
      CountConcat(a, b, s, n - 1);
    }
  }

  lemma {:induction false} CountPrefix(a: seq<nat>, b: seq<nat>, s: nat, n: nat)
    requires n <= |a|
    ensures CountUpTo(a + b, s, n) == CountUpTo(a, s, n)
  {
    if n > 0 { CountPrefix(a, b, s, n - 1); }
  }

  /** bl_count of the RFC, whose entry 0 is zero. */
  function Count(lengths: seq<nat>, l: nat): nat {
    if l == 0 then 0 else CountUpTo(lengths, l, |lengths|)
  }

  /** next_code of the RFC before any code is handed out. */
  function FirstCode(lengths: seq<nat>, l: nat): nat {
    if l == 0 then 0 else 2 * (FirstCode(lengths, l - 1) + Count(lengths, l - 1))
  }

  function CodeNumber(lengths: seq<nat>, s: nat): nat
    requires s < |lengths|
  {
    FirstCode(lengths, lengths[s]) + CountUpTo(lengths, lengths[s], s)
  }

  /** The code table of a sequence of code lengths; a symbol of length 0 has no code. */
  function Codes(lengths: seq<nat>): (code: CodeTable)
    ensures |code| == |lengths|
    ensures forall s :: 0 <= s < |code| ==> |code[s]| == lengths[s]
  {
    seq(|lengths|, s requires 0 <= s < |lengths| => CodeBits(CodeNumber(lengths, s), lengths[s]))
  }

  /** The Kraft sum of the first n lengths in units of 2^-maxLen, over lengths 1 to top only. */
  function KraftTo(lengths: seq<nat>, maxLen: nat, top: nat, n: nat): nat
    requires n <= |lengths|
  {
    if n == 0 then 0
    else KraftTo(lengths, maxLen, top, n - 1) +
         (if 1 <= lengths[n - 1] <= top && lengths[n - 1] <= maxLen then Pow2(maxLen - lengths[n - 1]) else 0)
  }

  /** The bits of a text in which symbol i occurs w[i] times and has a code of l[i] bits. */
  function Cost(w: seq<nat>, l: seq<nat>): nat
    requires |w| == |l|
  {
    if w == [] then 0 else Cost(w[..|w| - 1], l[..|l| - 1]) + w[|w| - 1] * l[|l| - 1]
  }

  predicate LengthsWithin(lengths: seq<nat>, maxLen: nat) {
    forall s :: 0 <= s < |lengths| ==> lengths[s] <= maxLen
  }

  /** Lengths of at most maxLen whose Kraft sum is exactly one. */
  predicate CompleteLengths(lengths: seq<nat>, maxLen: nat) {
    && LengthsWithin(lengths, maxLen)
    && KraftTo(lengths, maxLen, maxLen, |lengths|) == Pow2(maxLen)
  }

  /** Lengths of at most maxLen whose Kraft sum is at most one: they fit into a prefix code, perhaps with room to spare. */
  predicate FittingLengths(lengths: seq<nat>, maxLen: nat) {
    && LengthsWithin(lengths, maxLen)
    && KraftTo(lengths, maxLen, maxLen, |lengths|) <= Pow2(maxLen)
  }

  // ---- The codes of length l fill a known interval of [0, 2^maxLen) ----

  ghost function Low(lengths: seq<nat>, maxLen: nat, l: nat): nat
    requires l <= maxLen
  {
    FirstCode(lengths, l) * Pow2(maxLen - l)
  }

  ghost function High(lengths: seq<nat>, maxLen: nat, l: nat): nat
    requires l <= maxLen
  {
    (FirstCode(lengths, l) + Count(lengths, l)) * Pow2(maxLen - l)
  }

  lemma LowNext(lengths: seq<nat>, maxLen: nat, l: nat)
    requires l < maxLen
    ensures Low(lengths, maxLen, l + 1) == High(lengths, maxLen, l)
  {
    var f, p := FirstCode(lengths, l) + Count(lengths, l), Pow2(maxLen - l - 1);
    assert (2 * f) * p == f * (2 * p);
  }

  lemma LowHigh(lengths: seq<nat>, maxLen: nat, l: nat)
    requires l <= maxLen
    ensures High(lengths, maxLen, l) == Low(lengths, maxLen, l) + Count(lengths, l) * Pow2(maxLen - l)
    ensures Low(lengths, maxLen, l) <= High(lengths, maxLen, l)
  {
  }

  lemma {:induction false} HighBeforeLow(lengths: seq<nat>, maxLen: nat, a: nat, b: nat)
    requires a < b <= maxLen
    ensures High(lengths, maxLen, a) <= Low(lengths, maxLen, b)
    decreases b - a
  {
    LowNext(lengths, maxLen, a);
    if a + 1 < b {
      LowHigh(lengths, maxLen, a + 1);
      HighBeforeLow(lengths, maxLen, a + 1, b);
    }
  }

  lemma {:induction false} KraftStep(lengths: seq<nat>, maxLen: nat, l: nat, n: nat)
    requires 1 <= l <= maxLen && n <= |lengths|
    ensures KraftTo(lengths, maxLen, l, n)
         == KraftTo(lengths, maxLen, l - 1, n) + CountUpTo(lengths, l, n) * Pow2(maxLen - l)
  {
    if n > 0 {
      KraftStep(lengths, maxLen, l, n - 1);
      TimesPlusOne(CountUpTo(lengths, l, n - 1), Pow2(maxLen - l));
    }
  }

  lemma TimesPlusOne(k: nat, p: nat)
    ensures (k + 1) * p == k * p + p
  {
  }

  lemma {:induction false} KraftZero(lengths: seq<nat>, maxLen: nat, n: nat)
    requires n <= |lengths|
    ensures KraftTo(lengths, maxLen, 0, n) == 0
  {
    if n > 0 { KraftZero(lengths, maxLen, n - 1); }
  }

  /** The Kraft sum up to length l is where the codes of length l end. */
  lemma {:induction false} KraftIsHigh(lengths: seq<nat>, maxLen: nat, l: nat)
    requires l <= maxLen
    ensures KraftTo(lengths, maxLen, l, |lengths|) == High(lengths, maxLen, l)
  {
    if l == 0 {
      KraftZero(lengths, maxLen, |lengths|);
    } else {
      KraftIsHigh(lengths, maxLen, l - 1);
      KraftStep(lengths, maxLen, l, |lengths|);
      LowNext(lengths, maxLen, l - 1);
      LowHigh(lengths, maxLen, l);
    }
  }

  lemma {:induction false} CountUpToMonotone(lengths: seq<nat>, l: nat, m: nat, n: nat)
    requires m <= n <= |lengths|
    ensures CountUpTo(lengths, l, m) <= CountUpTo(lengths, l, n)
  {
    if m < n { CountUpToMonotone(lengths, l, m, n - 1); }
  }

  ghost function CodeLow(lengths: seq<nat>, maxLen: nat, s: nat): nat
    requires s < |lengths| && lengths[s] <= maxLen
  {
    CodeNumber(lengths, s) * Pow2(maxLen - lengths[s])
  }

  ghost function CodeHigh(lengths: seq<nat>, maxLen: nat, s: nat): nat
    requires s < |lengths| && lengths[s] <= maxLen
  {
    (CodeNumber(lengths, s) + 1) * Pow2(maxLen - lengths[s])
  }

  lemma CodeInterval(lengths: seq<nat>, maxLen: nat, s: nat)
    requires s < |lengths| && 1 <= lengths[s] <= maxLen
    ensures Low(lengths, maxLen, lengths[s]) <= CodeLow(lengths, maxLen, s)
    ensures CodeLow(lengths, maxLen, s) < CodeHigh(lengths, maxLen, s) <= High(lengths, maxLen, lengths[s])
  {
    var l := lengths[s];
    CountUpToMonotone(lengths, l, s + 1, |lengths|);
    var f, c, n, p := FirstCode(lengths, l), CountUpTo(lengths, l, s), Count(lengths, l), Pow2(maxLen - l);
    MulMonotone(f, f + c, p);
    MulMonotone(f + c + 1, f + n, p);
    assert (f + c + 1) * p == (f + c) * p + p;
  }

  lemma MulMonotone(a: nat, b: nat, c: nat)
    requires a <= b
    ensures a * c <= b * c
  {
  }

  /** The codes end where the Kraft sum says, so they fit their lengths. */
  lemma CodeBelowKraft(lengths: seq<nat>, maxLen: nat, s: nat)
    requires LengthsWithin(lengths, maxLen) && s < |lengths| && lengths[s] != 0
    ensures CodeHigh(lengths, maxLen, s) <= KraftTo(lengths, maxLen, maxLen, |lengths|)
  {
    var l := lengths[s];
    CodeInterval(lengths, maxLen, s);
    KraftIsHigh(lengths, maxLen, maxLen);
    if l < maxLen {
      HighBeforeLow(lengths, maxLen, l, maxLen);
      LowHigh(lengths, maxLen, maxLen);
    }
  }

  lemma CodeFits(lengths: seq<nat>, maxLen: nat, s: nat)
    requires FittingLengths(lengths, maxLen) && s < |lengths| && lengths[s] != 0
    ensures CodeNumber(lengths, s) < Pow2(lengths[s])
    ensures KraftTo(lengths, maxLen, maxLen, |lengths|) < Pow2(maxLen) ==> CodeNumber(lengths, s) + 1 < Pow2(lengths[s])
  {
    var l := lengths[s];
    CodeBelowKraft(lengths, maxLen, s);
    Pow2Add(l, maxLen - l);
    CancelMul(CodeNumber(lengths, s) + 1, Pow2(l), Pow2(maxLen - l));
    if KraftTo(lengths, maxLen, maxLen, |lengths|) < Pow2(maxLen) {
      CancelMulStrict(CodeNumber(lengths, s) + 1, Pow2(l), Pow2(maxLen - l));
    }
  }

  lemma CancelMul(a: nat, b: nat, p: nat)
    requires p > 0 && a * p <= b * p
    ensures a <= b
  {
    MulAtLeast(a - b, p);
    assert (a - b) * p == a * p - b * p;
  }

  lemma IntervalsInOrder(lengths: seq<nat>, maxLen: nat, a: nat, b: nat)
    requires LengthsWithin(lengths, maxLen) && a < |lengths| && b < |lengths|
    requires 1 <= lengths[a] && (lengths[a] < lengths[b] || (lengths[a] == lengths[b] && a < b))
    ensures CodeHigh(lengths, maxLen, a) <= CodeLow(lengths, maxLen, b)
  {
    CodeInterval(lengths, maxLen, a);
    CodeInterval(lengths, maxLen, b);
    if lengths[a] < lengths[b] {
      HighBeforeLow(lengths, maxLen, lengths[a], lengths[b]);
    } else {
      CountUpToMonotone(lengths, lengths[a], a + 1, b);
      MulMonotone(CodeNumber(lengths, a) + 1, CodeNumber(lengths, b), Pow2(maxLen - lengths[a]));
    }
  }

  lemma CodeAt(lengths: seq<nat>, s: nat)
    requires s < |lengths|
    ensures Codes(lengths)[s] == CodeBits(CodeNumber(lengths, s), lengths[s])
  {
  }

  /** If one code is a prefix of another, the second starts inside the interval of the first. */
  lemma PrefixMeansOverlap(lengths: seq<nat>, maxLen: nat, a: nat, b: nat)
    requires FittingLengths(lengths, maxLen) && a < |lengths| && b < |lengths|
    requires 1 <= lengths[a] <= lengths[b]
    requires CodeBits(CodeNumber(lengths, a), lengths[a]) <= CodeBits(CodeNumber(lengths, b), lengths[b])
    ensures CodeLow(lengths, maxLen, a) <= CodeLow(lengths, maxLen, b) < CodeHigh(lengths, maxLen, a)
  {
    var la, lb := lengths[a], lengths[b];
    var ca, cb := CodeNumber(lengths, a), CodeNumber(lengths, b);
    CodeFits(lengths, maxLen, a);
    CodeFits(lengths, maxLen, b);
    PrefixIsQuotient(ca, la, cb, lb);
    Pow2Add(lb - la, maxLen - lb);
    ScaledShr(cb, lb - la, Pow2(maxLen - lb));
  }

  lemma PrefixIsQuotient(a: nat, la: nat, b: nat, lb: nat)
    requires a < Pow2(la) && b < Pow2(lb) && la <= lb
    requires CodeBits(a, la) <= CodeBits(b, lb)
    ensures a == Shr(b, lb - la)
  {
    var q := Shr(b, lb - la);
    CodeBitsPrefix(b, lb, la);
    Pow2Add(la, lb - la);
    ShrInterval(b, lb - la);
    CancelMulStrict(q, Pow2(la), Pow2(lb - la));
    CodeValueOfCodeBits(a, la);
    CodeValueOfCodeBits(q, la);
    assert CodeBits(b, lb)[..la] == CodeBits(a, la);
  }

  lemma ScaledShr(v: nat, k: nat, p: nat)
    ensures Shr(v, k) * (Pow2(k) * p) <= v * p
    ensures p > 0 ==> v * p < (Shr(v, k) + 1) * (Pow2(k) * p)
  {
    ShrInterval(v, k);
    ScaledInterval(v, Shr(v, k), Pow2(k), p);
  }

  lemma ScaledInterval(v: nat, q: nat, d: nat, p: nat)
    requires q * d <= v < (q + 1) * d
    ensures q * (d * p) <= v * p
    ensures p > 0 ==> v * p < (q + 1) * (d * p)
  {
    MulMonotone(q * d, v, p);
    MulMonotone(v + 1, (q + 1) * d, p);
    MulAssoc(q, d, p);
    MulAssoc(q + 1, d, p);
    assert (v + 1) * p == v * p + p;
  }

  lemma MulAssoc(a: nat, b: nat, c: nat)
    ensures a * (b * c) == a * b * c
  {
  }

  lemma CanonicalPrefixFree(lengths: seq<nat>, maxLen: nat)
    requires CompleteLengths(lengths, maxLen)
    ensures PrefixFree(Codes(lengths))
  {
    FittingPrefixFree(lengths, maxLen);
  }

  /** No code is a prefix of another. */
  lemma FittingPrefixFree(lengths: seq<nat>, maxLen: nat)
    requires FittingLengths(lengths, maxLen)
    ensures PrefixFree(Codes(lengths))
  {
    var code := Codes(lengths);
    forall a: nat, b: nat | Present(code, a) && Present(code, b) && code[a] <= code[b]
      ensures a == b
    {
      CodeAt(lengths, a);
      CodeAt(lengths, b);
      assert lengths[a] == |code[a]| <= |code[b]| == lengths[b];
      PrefixMeansOverlap(lengths, maxLen, a, b);
      if lengths[a] < lengths[b] || (lengths[a] == lengths[b] && a < b) {
        IntervalsInOrder(lengths, maxLen, a, b);
      } else if a != b {
        CodeInterval(lengths, maxLen, b);
        IntervalsInOrder(lengths, maxLen, b, a);
      }
    }
  }

  lemma {:induction false} FindLength(lengths: seq<nat>, maxLen: nat, v: nat, top: nat) returns (l: nat)
    requires top <= maxLen && v < High(lengths, maxLen, top)
    ensures 1 <= l <= top && Low(lengths, maxLen, l) <= v < High(lengths, maxLen, l)
  {
    if top == 0 || Low(lengths, maxLen, top) <= v {
      l := top;
    } else {
      LowNext(lengths, maxLen, top - 1);
      l := FindLength(lengths, maxLen, v, top - 1);
    }
  }

  lemma {:induction false} FindSymbol(lengths: seq<nat>, l: nat, q: nat, n: nat) returns (s: nat)
    requires n <= |lengths| && q < CountUpTo(lengths, l, n)
    ensures s < n && lengths[s] == l && CountUpTo(lengths, l, s) == q
  {
    if lengths[n - 1] == l && CountUpTo(lengths, l, n - 1) == q {
      s := n - 1;
    } else {
      s := FindSymbol(lengths, l, q, n - 1);
    }
  }

  /** Bits whose number is below the Kraft sum start with a code. */
  lemma CanonicalCoversOne(lengths: seq<nat>, maxLen: nat, p: BitString) returns (s: nat)
    requires LengthsWithin(lengths, maxLen) && |p| == maxLen && CodeValue(p) < KraftTo(lengths, maxLen, maxLen, |lengths|)
    ensures s < |lengths| && 1 <= lengths[s] && CodeBits(CodeNumber(lengths, s), lengths[s]) <= p
  {
    hide FirstCode, CountUpTo, KraftTo, Shr, CodeBits, CodeValue, Pow2;
    var v := CodeValue(p);
    KraftIsHigh(lengths, maxLen, maxLen);
    var l := FindLength(lengths, maxLen, v, maxLen);
    var f := FirstCode(lengths, l);
    ShrBetween(v, maxLen - l, f, f + Count(lengths, l));
    s := FindSymbol(lengths, l, Shr(v, maxLen - l) - f, |lengths|);
    CodeBitsOfCodeValue(p);
    CodeBitsPrefix(v, maxLen, l);
    assert p[..l] <= p;
  }

  lemma ShrBetween(v: nat, k: nat, a: nat, b: nat)
    requires a * Pow2(k) <= v < b * Pow2(k)
    ensures a <= Shr(v, k) < b
  {
    ShrInterval(v, k);
    CancelMulStrict(a, Shr(v, k) + 1, Pow2(k));
    CancelMulStrict(Shr(v, k), b, Pow2(k));
  }

  lemma CancelMulStrict(a: nat, b: nat, p: nat)
    requires a * p < b * p
    ensures a < b
  {
    if b <= a { MulMonotone(b, a, p); }
  }

  /** Every bit string of length maxLen starts with a code. */
  lemma CanonicalCovers(lengths: seq<nat>, maxLen: nat)
    requires CompleteLengths(lengths, maxLen)
    ensures Covers(Codes(lengths), maxLen)
  {
    forall p: BitString | |p| == maxLen
      ensures Reaches(Codes(lengths), p)
    {
      CodeValueBound(p);
      var s := CanonicalCoversOne(lengths, maxLen, p);
      CodeAt(lengths, s);
      assert Starts(Codes(lengths), s, p);
    }
  }

  /** The tree of a complete code has fewer inner nodes than there are symbols. */
  lemma CompleteHasRoom(lengths: seq<nat>, maxLen: nat)
    requires CompleteLengths(lengths, maxLen)
    ensures FittingLengths(lengths, maxLen) && |InnerNodes(Codes(lengths))| < |lengths|
  {
    hide KraftTo, Codes;
    CanonicalPrefixFree(lengths, maxLen);
    CanonicalCovers(lengths, maxLen);
    NodeCount(Codes(lengths), maxLen, InnerNodes(Codes(lengths)));
    SymbolsBound(Codes(lengths));
  }

  /** A complete code leaves no bits out, so symbols are read by their codes only. */
  lemma CompleteHasNoDeadEnd(lengths: seq<nat>, maxLen: nat, bits: BitString)
    requires CompleteLengths(lengths, maxLen)
    ensures !DeadEnd(Codes(lengths), bits)
  {
    hide KraftTo, Codes;
    var code := Codes(lengths);
    CanonicalPrefixFree(lengths, maxLen);
    CanonicalCovers(lengths, maxLen);
    if bits != [] {
      var p, bit := bits[..|bits| - 1], bits[|bits| - 1];
      assert bits == p + [bit];
      if p == [] { RootIsInner(code, maxLen); }
      if InnerPath(code, p) {
        ChildReachesSymbol(code, maxLen, p, bit);
        var s: nat :| s in SymbolsBelow(code, bits);
        assert Present(code, s);
      }
    }
  }

  lemma RootIsInner(code: CodeTable, maxLen: nat)
    requires Covers(code, maxLen)
    ensures InnerPath(code, [])
  {
    var p := Pad([], maxLen);
    assert Reaches(code, p);
    var s: nat :| Starts(code, s, p);
  }

  // ---- Unused symbols at the end do not change the codes ----

  lemma {:induction false} CountUpToExtend(lengths: seq<nat>, more: seq<nat>, l: nat, n: nat)
    requires n <= |lengths| + |more|
    requires l != 0 && forall i :: 0 <= i < |more| ==> more[i] == 0
    ensures CountUpTo(lengths + more, l, n) == CountUpTo(lengths, l, if n <= |lengths| then n else |lengths|)
  {
    if n > 0 { CountUpToExtend(lengths, more, l, n - 1); }
  }

  lemma {:induction false} FirstCodeExtend(lengths: seq<nat>, more: seq<nat>, l: nat)
    requires forall i :: 0 <= i < |more| ==> more[i] == 0
    ensures FirstCode(lengths + more, l) == FirstCode(lengths, l)
  {
    if l > 0 {
      FirstCodeExtend(lengths, more, l - 1);
      if l > 1 { CountUpToExtend(lengths, more, l - 1, |lengths| + |more|); }
    }
  }

  /** Trees over alphabets of different sizes agree on their common symbols. */
  lemma CodesExtend(lengths: seq<nat>, more: seq<nat>)
    requires forall i :: 0 <= i < |more| ==> more[i] == 0
    ensures Codes(lengths + more) == Codes(lengths) + seq(|more|, i => [])
  {
    var long, short := Codes(lengths + more), Codes(lengths) + seq(|more|, i => []);
    forall s | 0 <= s < |lengths| + |more|
      ensures long[s] == short[s]
    {
      if s < |lengths| && lengths[s] != 0 {
        CodeAt(lengths, s);
        CodeAt(lengths + more, s);
        CodeExtend(lengths, more, s);
      }
    }
  }

  lemma CodeExtend(lengths: seq<nat>, more: seq<nat>, s: nat)
    requires s < |lengths| && lengths[s] != 0
    requires forall i :: 0 <= i < |more| ==> more[i] == 0
    ensures CodeNumber(lengths + more, s) == CodeNumber(lengths, s)
  {
    FirstCodeExtend(lengths, more, lengths[s]);
    CountUpToExtend(lengths, more, lengths[s], s);
  }

  lemma {:induction false} KraftExtend(lengths: seq<nat>, more: seq<nat>, maxLen: nat, n: nat)
    requires n <= |lengths| + |more|
    requires forall i :: 0 <= i < |more| ==> more[i] == 0
    ensures KraftTo(lengths + more, maxLen, maxLen, n)
         == KraftTo(lengths, maxLen, maxLen, if n <= |lengths| then n else |lengths|)
  {
    if n > 0 { KraftExtend(lengths, more, maxLen, n - 1); }
  }

  lemma CompleteExtend(lengths: seq<nat>, more: seq<nat>, maxLen: nat)
    requires CompleteLengths(lengths, maxLen)
    requires forall i :: 0 <= i < |more| ==> more[i] == 0
    ensures CompleteLengths(lengths + more, maxLen)
  {
    KraftExtend(lengths, more, maxLen, |lengths| + |more|);
  }
}
