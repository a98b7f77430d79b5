/** From the number of codes of each length to a Huffman table without its last code (compositor/jpge.cpp:217-234). */
module JpegCounts {
  import opened Bits
  import opened PrefixCode
  import opened Canonical
  import opened JpegTables
  import opened JpegTreeSize
  import opened JpegLimit

  // ---- Sums over the sizes are sums over the counts ----

  lemma {:induction false} KraftAppend(a: seq<nat>, b: seq<nat>, m: nat, n: nat)
    requires n <= |b|
    ensures KraftTo(a + b, m, m, |a| + n) == KraftTo(a, m, m, |a|) + KraftTo(b, m, m, n)
  {
    if n > 0 { KraftAppend(a, b, m, n - 1); } else { KraftOfFront(a, b, m, |a|); }
  }

  lemma {:induction false} KraftOfFront(a: seq<nat>, b: seq<nat>, m: nat, n: nat)
    requires n <= |a|
    ensures KraftTo(a + b, m, m, n) == KraftTo(a, m, m, n)
  {
    if n > 0 { KraftOfFront(a, b, m, n - 1); }
  }

  lemma {:induction false} KraftOfCopies(v: nat, c: nat, m: nat)
    requires 1 <= v <= m
    ensures KraftTo(Copies(v, c), m, m, c) == c * Pow2(m - v)
  {
    if c > 0 {
      KraftOfCopies(v, c - 1, m);
      KraftOfFront(Copies(v, c - 1), [v], m, c - 1);
      TimesPlusOne(c - 1, Pow2(m - v));
    }
  }

  /** The Kraft sum of the sizes, and how many there are. */
  lemma {:induction false} SizesSum(bits: seq<Byte>, l: nat, m: nat)
    requires l < |bits| && l <= m
    ensures |SizesTo(bits, l)| == CodeCount(bits, l)
    ensures KraftTo(SizesTo(bits, l), m, m, |SizesTo(bits, l)|) == KraftOf(bits, l, m)
  {
    if l > 0 {
      SizesSum(bits, l - 1, m);
      KraftOfCopies(l, bits[l], m);
      KraftAppend(SizesTo(bits, l - 1), Copies(l, bits[l]), m, bits[l]);
    }
  }

  // ---- The last code ----

  /** The largest length that has codes. */
  ghost predicate LastLength(bits: seq<Byte>, top: nat) {
    |bits| == 17 && 1 <= top <= 16 && bits[top] > 0 && forall i :: top < i <= 16 ==> bits[i] == 0
  }

  lemma {:induction false} NoneBehind(bits: seq<Byte>, top: nat, l: nat)
    requires top <= l < |bits| && forall i :: top < i <= l ==> bits[i] == 0
    ensures SizesTo(bits, l) == SizesTo(bits, top)
  {
    if top < l { NoneBehind(bits, top, l - 1); }
  }

  lemma {:induction false} SizesBelow(bits: seq<Byte>, bits': seq<Byte>, l: nat)
    requires l < |bits| && l < |bits'| && forall i :: 1 <= i <= l ==> bits[i] == bits'[i]
    ensures SizesTo(bits, l) == SizesTo(bits', l)
  {
    if l > 0 { SizesBelow(bits, bits', l - 1); }
  }

  /** One code less of the largest length: the last of the sizes goes. */
  lemma LastRemoved(bits: seq<Byte>, top: nat)
    requires LastLength(bits, top)
    ensures |bits[top := bits[top] - 1]| == 17 && Sizes(bits) == Sizes(bits[top := bits[top] - 1]) + [top]
  {
    var less := bits[top := bits[top] - 1];
    NoneBehind(bits, top, 16);
    NoneBehind(less, top, 16);
    SizesBelow(bits, less, top - 1);
  }

  /** The other codes stay what they are. */
  lemma {:induction false} FirstCodePush(sizes: seq<nat>, top: nat, l: nat)
    requires l <= top
    ensures FirstCode(sizes + [top], l) == FirstCode(sizes, l)
  {
    if l > 0 {
      FirstCodePush(sizes, top, l - 1);
      CountPush(sizes, top, l - 1, |sizes|);
    }
  }

  lemma {:induction false} CountPush(sizes: seq<nat>, top: nat, l: nat, n: nat)
    requires n <= |sizes|
    ensures CountUpTo(sizes + [top], l, n) == CountUpTo(sizes, l, n)
  {
    if n > 0 { CountPush(sizes, top, l, n - 1); }
  }

  lemma CodesPush(sizes: seq<nat>, top: nat, p: nat)
    requires p < |sizes| && sizes[p] <= top
    ensures Codes(sizes + [top])[p] == Codes(sizes)[p]
  {
    hide FirstCode, CountUpTo;
    FirstCodePush(sizes, top, sizes[p]);
    CountPush(sizes, top, sizes[p], p);
    CodeAt(sizes, p);
    CodeAt(sizes + [top], p);
  }

  // ---- A complete code without its last code ----

  /** No code consists of ones only. */
  ghost predicate NoAllOnes(sizes: seq<nat>) {
    forall p :: 0 <= p < |sizes| ==> false in Codes(sizes)[p]
  }

  lemma {:induction false} OnesValue(s: BitString)
    requires false !in s
    ensures CodeValue(s) + 1 == Pow2(|s|)
  {
    if s != [] {
      assert false !in s[..|s| - 1];
      OnesValue(s[..|s| - 1]);
      assert s[|s| - 1];
    }
  }

  lemma NotOnes(sizes: seq<nat>, m: nat, p: nat)
    requires FittingLengths(sizes, m) && KraftTo(sizes, m, m, |sizes|) < Pow2(m) && p < |sizes| && sizes[p] != 0
    ensures false in Codes(sizes)[p]
  {
    hide KraftTo, FirstCode, CountUpTo;
    CodeFits(sizes, m, p);
    CodeAt(sizes, p);
    CodeValueOfCodeBits(CodeNumber(sizes, p), sizes[p]);
    if false !in Codes(sizes)[p] { OnesValue(Codes(sizes)[p]); }
  }

  /** What the table of a complete code of at most 256 symbols is like without its last code. */
  lemma WithoutLast(bits: seq<Byte>, top: nat, count: nat)
    requires LastLength(bits, top) && Limited(bits, count, 16) && count <= 256
    ensures
      var sizes := Sizes(bits[top := bits[top] - 1]);
      && |sizes| == count - 1 && FittingLengths(sizes, 16) && NoAllOnes(sizes) && |Inner(Codes(sizes))| <= 256
  {
    hide SizesTo, KraftTo, KraftOf, CodeCount, Inner, Codes, CodeNumber;
    var sizes := Sizes(bits[top := bits[top] - 1]);
    LastRemoved(bits, top);
    SizesSum(bits, 16, 16);
    SizesToAscending(bits, 16);
    var full := Sizes(bits);
    assert full == sizes + [top];
    KraftAppend(sizes, [top], 16, 1);
    OneLength(top);
    forall p | 0 <= p < |sizes| ensures 1 <= sizes[p] <= top && sizes[p] <= 16 { assert sizes[p] == full[p] <= full[|sizes|] == top; }
    forall p | 0 <= p < |sizes| ensures false in Codes(sizes)[p] { NotOnes(sizes, 16, p); }
    assert CompleteLengths(full, 16);
    InnerOfComplete(sizes, top);
  }

  lemma OneLength(top: nat)
    requires 1 <= top <= 16
    ensures KraftTo([top], 16, 16, 1) == Pow2(16 - top) && Pow2(16 - top) > 0
  {
  }

  lemma InnerOfComplete(sizes: seq<nat>, top: nat)
    requires CompleteLengths(sizes + [top], 16) && forall p :: 0 <= p < |sizes| ==> 1 <= sizes[p] <= top
    ensures |Inner(Codes(sizes))| < |sizes| + 1
  {
    hide KraftTo, CompleteLengths, CodeNumber;
    var full, codes := sizes + [top], Codes(sizes);
    CanonicalPrefixFree(full, 16);
    CanonicalCovers(full, 16);
    forall q | q in Inner(codes) ensures InnerPath(Codes(full), q) {
      var p: nat, k :| 0 <= p < |codes| && 8 <= k < |codes[p]| && q == codes[p][..k];
      CodesPush(sizes, top, p);
      assert Present(Codes(full), p) && q < Codes(full)[p];
    }
    NodeCount(Codes(full), 16, Inner(codes));
    SymbolsBound(Codes(full));
  }
}
