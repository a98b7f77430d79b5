/** How many nodes the decoder's tree for long codes needs, from the number of codes of each length (compositor/jpgd.cpp:2307-2345). */
module JpegTreeSize {
  import opened Bits
  import opened PrefixCode
  import opened Canonical
  import opened JpegTables

  /** The proper prefixes, of eight bits or more, of the codes: the nodes that the tree needs. */
  ghost function Inner(all: seq<BitString>): set<BitString> {
    set p, k | 0 <= p < |all| && 8 <= k < |all[p]| :: all[p][..k]
  }

  /** The part of the code space behind length d, in units of 2^-16. */
  function Behind(bits: seq<Byte>, d: nat): nat
    requires |bits| == 17 && d <= 16
    decreases 16 - d
  {
    if d == 16 then 0 else bits[d + 1] * Pow2(15 - d) + Behind(bits, d + 1)
  }

  /** The nodes of d bits: that part in units of 2^-d, rounded up. */
  function LevelSize(bits: seq<Byte>, d: nat): nat
    requires |bits| == 17 && d <= 16
  {
    (Behind(bits, d) + Pow2(16 - d) - 1) / Pow2(16 - d)
  }

  function NodesFrom(bits: seq<Byte>, d: nat): nat
    requires |bits| == 17 && d <= 16
    decreases 16 - d
  {
    if d == 16 then 0 else LevelSize(bits, d) + NodesFrom(bits, d + 1)
  }

  /** The size of the tree, as it can be read off the counts. */
  function TreeSize(bits: seq<Byte>): nat
    requires |bits| == 17
  {
    NodesFrom(bits, 8)
  }

  // ---- What lies behind a length ----

  lemma {:induction false} CountOfCopies(v: nat, c: nat, l: nat)
    ensures CountUpTo(Copies(v, c), l, c) == if v == l then c else 0
  {
    if c > 0 {
      CountOfCopies(v, c - 1, l);
      CountPrefix(Copies(v, c - 1), [v], l, c - 1);
    }
  }

  /** bits[l] of the sizes are l. */
  lemma {:induction false} SizesCount(bits: seq<Byte>, l: nat, n: nat)
    requires n < |bits|
    ensures CountUpTo(SizesTo(bits, n), l, |SizesTo(bits, n)|) == if 1 <= l <= n then bits[l] else 0
  {
    if n > 0 {
      SizesCount(bits, l, n - 1);
      CountOfCopies(n, bits[n], l);
      CountConcat(SizesTo(bits, n - 1), Copies(n, bits[n]), l, bits[n]);
    }
  }

  lemma {:induction false} BehindIsKraft(bits: seq<Byte>, d: nat)
    requires |bits| == 17 && d <= 16
    ensures
      var sizes := Sizes(bits);
      KraftTo(sizes, 16, d, |sizes|) + Behind(bits, d) == KraftTo(sizes, 16, 16, |sizes|)
    decreases 16 - d
  {
    hide SizesTo, KraftTo, Pow2;
    if d < 16 {
      BehindIsKraft(bits, d + 1);
      KraftStep(Sizes(bits), 16, d + 1, |Sizes(bits)|);
      SizesCount(bits, d + 1, 16);
    }
  }

  // ---- The nodes of one depth ----

  /** The prefixes of d bits of the codes that are longer. */
  ghost function Level(all: seq<BitString>, d: nat): set<BitString> {
    set p | 0 <= p < |all| && d < |all[p]| :: all[p][..d]
  }

  /** The numbers from a to b, as strings of d bits. */
  ghost function Numbers(a: nat, b: nat, d: nat): set<BitString> {
    set v | a <= v < b :: CodeBits(v, d)
  }

  lemma {:induction false} NumbersCard(a: nat, b: nat, d: nat)
    requires a <= b <= Pow2(d)
    ensures |Numbers(a, b, d)| == b - a
  {
    if a < b {
      NumbersCard(a, b - 1, d);
      forall v | a <= v < b - 1 ensures CodeBits(v, d) != CodeBits(b - 1, d) {
        CodeValueOfCodeBits(v, d);
        CodeValueOfCodeBits(b - 1, d);
      }
      assert Numbers(a, b, d) == Numbers(a, b - 1, d) + {CodeBits(b - 1, d)};
    } else {
      assert Numbers(a, b, d) == {};
    }
  }

  /** Where the codes of d bits end. */
  ghost function End(sizes: seq<nat>, d: nat): nat { FirstCode(sizes, d) + Count(sizes, d) }

  lemma RoundUp(e: nat, rest: nat, p: nat)
    requires p > 0
    ensures
      var c := e + (rest + p - 1) / p;
      e * p + rest <= c * p && (c > e ==> (c - 1) * p < e * p + rest)
  {
    var q := (rest + p - 1) / p;
    assert q * p <= rest + p - 1 < q * p + p;
    assert (e + q) * p == e * p + q * p;
    if q > 0 { assert (e + q - 1) * p == e * p + q * p - p; }
  }

  /** The nodes of d bits are the numbers from the end of the codes of d bits to the end of all codes, rounded up. */
  lemma LevelBounds(bits: seq<Byte>, d: nat)
    requires |bits| == 17 && d <= 16 && FittingLengths(Sizes(bits), 16)
    ensures
      var sizes := Sizes(bits);
      var total, e, c, p := KraftTo(sizes, 16, 16, |sizes|), End(sizes, d), End(sizes, d) + LevelSize(bits, d), Pow2(16 - d);
      && p > 0 && total <= c * p && (c > e ==> (c - 1) * p < total) && c <= Pow2(d)
      && e * p == High(sizes, 16, d) <= total
  {
    hide SizesTo, KraftTo, Pow2, FirstCode, Count, Behind;
    var sizes := Sizes(bits);
    var total, e, c, p := KraftTo(sizes, 16, 16, |sizes|), End(sizes, d), End(sizes, d) + LevelSize(bits, d), Pow2(16 - d);
    BehindIsKraft(bits, d);
    KraftIsHigh(sizes, 16, d);
    RoundUp(e, Behind(bits, d), p);
    Pow2Add(d, 16 - d);
    if c > e { CancelMulStrict(c - 1, Pow2(d), p); } else { CancelMul(e, Pow2(d), p); }
  }

  lemma PrefixInLevel(bits: seq<Byte>, d: nat, s: nat)
    requires |bits| == 17 && d <= 16 && FittingLengths(Sizes(bits), 16) && s < |Sizes(bits)| && d < Sizes(bits)[s]
    ensures
      var sizes := Sizes(bits);
      var v := Shr(CodeNumber(sizes, s), sizes[s] - d);
      Codes(sizes)[s][..d] == CodeBits(v, d) && End(sizes, d) <= v < End(sizes, d) + LevelSize(bits, d)
  {
    hide SizesTo, KraftTo, Pow2, FirstCode, Count, CountUpTo, LevelSize, CodeBits, Shr, Codes;
    var sizes := Sizes(bits);
    var l, n, p := sizes[s], CodeNumber(sizes, s), Pow2(16 - d);
    var v := Shr(n, l - d);
    LevelBounds(bits, d);
    CodeAt(sizes, s);
    CodeBitsPrefix(n, l, d);
    CodeInterval(sizes, 16, s);
    HighBeforeLow(sizes, 16, d, l);
    CodeBelowKraft(sizes, 16, s);
    Pow2Add(l - d, 16 - l);
    ScaledShr(n, l - d, Pow2(16 - l));
    CancelMulStrict(End(sizes, d), v + 1, p);
    CancelMulStrict(v, End(sizes, d) + LevelSize(bits, d), p);
  }

  lemma NumberInLevel(bits: seq<Byte>, d: nat, v: nat) returns (s: nat)
    requires |bits| == 17 && d <= 16 && FittingLengths(Sizes(bits), 16)
    requires End(Sizes(bits), d) <= v < End(Sizes(bits), d) + LevelSize(bits, d)
    ensures s < |Sizes(bits)| && d < Sizes(bits)[s] && Codes(Sizes(bits))[s][..d] == CodeBits(v, d)
  {
    hide SizesTo, KraftTo, Pow2, FirstCode, Count, CountUpTo, LevelSize, CodeBits, CodeValue, Shr, Codes;
    var sizes, p := Sizes(bits), Pow2(16 - d);
    var point := v * p;
    LevelBounds(bits, d);
    MulMonotone(v, End(sizes, d) + LevelSize(bits, d) - 1, p);
    MulMonotone(End(sizes, d), v, p);
    var bitsOfPoint := CodeBits(point, 16);
    CodeValueOfCodeBits(point, 16);
    s := CanonicalCoversOne(sizes, 16, bitsOfPoint);
    CodeAt(sizes, s);
    if sizes[s] <= d { NotShort(sizes, d, s, point); }
    CodeBitsPrefix(point, 16, d);
    ShrExact(v, 16 - d);
    assert Codes(sizes)[s][..d] == bitsOfPoint[..d];
  }

  lemma ShrExact(v: nat, k: nat)
    ensures Shr(v * Pow2(k), k) == v
  {
    hide Shr, Pow2;
    ShrInterval(v * Pow2(k), k);
    CancelMulStrict(v, Shr(v * Pow2(k), k) + 1, Pow2(k));
    CancelMul(Shr(v * Pow2(k), k), v, Pow2(k));
  }

  /** A code of at most d bits ends before the codes that are longer. */
  lemma NotShort(sizes: seq<nat>, d: nat, s: nat, point: nat)
    requires FittingLengths(sizes, 16) && s < |sizes| && 1 <= sizes[s] <= d <= 16 && High(sizes, 16, d) <= point < Pow2(16)
    ensures !(CodeBits(CodeNumber(sizes, s), sizes[s]) <= CodeBits(point, 16))
  {
    hide KraftTo, Pow2, FirstCode, Count, CountUpTo, CodeBits, Shr;
    var l, n := sizes[s], CodeNumber(sizes, s);
    CodeInterval(sizes, 16, s);
    if l < d {
      HighBeforeLow(sizes, 16, l, d);
      LowHigh(sizes, 16, d);
    }
    CodeFits(sizes, 16, s);
    if CodeBits(n, l) <= CodeBits(point, 16) {
      PrefixIsQuotient(n, l, point, 16);
      ShrInterval(point, 16 - l);
    }
  }

  lemma LevelCard(bits: seq<Byte>, d: nat)
    requires |bits| == 17 && d <= 16 && FittingLengths(Sizes(bits), 16)
    ensures |Level(Codes(Sizes(bits)), d)| == LevelSize(bits, d)
  {
    hide SizesTo, FittingLengths, Pow2, End, LevelSize, CodeBits, Codes, Numbers, FirstCode;
    var sizes := Sizes(bits);
    var all, e, n := Codes(sizes), End(sizes, d), LevelSize(bits, d);
    LevelBounds(bits, d);
    forall q | q in Level(all, d) ensures q in Numbers(e, e + n, d) {
      var s: nat :| s < |all| && d < |all[s]| && q == all[s][..d];
      PrefixInLevel(bits, d, s);
      InNumbers(e, e + n, d, Shr(CodeNumber(sizes, s), sizes[s] - d));
    }
    forall q | q in Numbers(e, e + n, d) ensures q in Level(all, d) {
      var v := SomeNumber(e, e + n, d, q);
      var s := NumberInLevel(bits, d, v);
      assert q == all[s][..d];
    }
    assert Level(all, d) == Numbers(e, e + n, d);
    NumbersCard(e, e + n, d);
  }

  lemma InNumbers(a: nat, b: nat, d: nat, v: nat)
    requires a <= v < b
    ensures CodeBits(v, d) in Numbers(a, b, d)
  {
  }

  lemma SomeNumber(a: nat, b: nat, d: nat, q: BitString) returns (v: nat)
    requires q in Numbers(a, b, d)
    ensures a <= v < b && q == CodeBits(v, d)
  {
    v :| a <= v < b && q == CodeBits(v, d);
  }

  // ---- All depths ----

  ghost function Deeper(all: seq<BitString>, d: nat): set<BitString> {
    set p, k | 0 <= p < |all| && d <= k < |all[p]| :: all[p][..k]
  }

  lemma DeeperStep(all: seq<BitString>, d: nat)
    ensures |Deeper(all, d)| == |Level(all, d)| + |Deeper(all, d + 1)|
  {
    forall q | q in Deeper(all, d) ensures q in Level(all, d) + Deeper(all, d + 1) {
      var p, k :| 0 <= p < |all| && d <= k < |all[p]| && q == all[p][..k];
    }
    forall q | q in Level(all, d) ensures q in Deeper(all, d) && q !in Deeper(all, d + 1) {
      var p :| 0 <= p < |all| && d < |all[p]| && q == all[p][..d];
    }
    assert Deeper(all, d) == Level(all, d) + Deeper(all, d + 1);
  }

  lemma {:induction false} DeeperCard(bits: seq<Byte>, d: nat)
    requires |bits| == 17 && d <= 16 && FittingLengths(Sizes(bits), 16)
    ensures |Deeper(Codes(Sizes(bits)), d)| == NodesFrom(bits, d)
    decreases 16 - d
  {
    hide SizesTo, Codes, KraftTo, Level, LevelSize;
    var all := Codes(Sizes(bits));
    if d == 16 {
      assert Deeper(all, 16) == {};
    } else {
      DeeperCard(bits, d + 1);
      DeeperStep(all, d);
      LevelCard(bits, d);
    }
  }

  /** The number of nodes is a sum over the counts. */
  lemma InnerSize(bits: seq<Byte>)
    requires |bits| == 17 && FittingLengths(Sizes(bits), 16)
    ensures |Inner(Codes(Sizes(bits)))| == TreeSize(bits)
  {
    hide SizesTo, Codes, KraftTo;
    DeeperCard(bits, 8);
    assert Inner(Codes(Sizes(bits))) == Deeper(Codes(Sizes(bits)), 8);
  }
}
