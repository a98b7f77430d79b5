/** Numbers, bytes and bit strings: the vocabulary of every bit stream in the project. */
module Bits {

  type Byte = x: int | 0 <= x < 256
  type BitString = seq<bool>

  /** Stands for a write past the end of a buffer, which the source does not detect. */
  const OUT_OF_BOUNDS: nat := 1000

  function Pow2(n: nat): (p: nat)
    ensures p > 0
  {
    if n == 0 then 1 else 2 * Pow2(n - 1)
  }

  function B2N(b: bool): (n: nat) { if b then 1 else 0 }

  /** Bit i of v, counted from the least significant: (v >> i) & 1. */
  predicate Bit(v: nat, i: nat) {
    if i == 0 then v % 2 == 1 else Bit(v / 2, i - 1)
  }

  /** v | (1 << i), which adds 2^i unless the bit is set already. */
  function OrBit(v: nat, i: nat): nat {
    if Bit(v, i) then v else v + Pow2(i)
  }

  /** The n low bits of v, least significant first. */
  function LowBits(v: nat, n: nat): (s: BitString)
    ensures |s| == n
  {
    if n == 0 then [] else [v % 2 == 1] + LowBits(v / 2, n - 1)
  }

  /** The n low bits of v, most significant first: the order in which Huffman codes are written. */
  function CodeBits(v: nat, n: nat): (s: BitString)
    ensures |s| == n
  {
    if n == 0 then [] else CodeBits(v / 2, n - 1) + [v % 2 == 1]
  }

  /** The number whose bits, least significant first, are s. */
  function Value(s: BitString): nat {
    if s == [] then 0 else B2N(s[0]) + 2 * Value(s[1..])
  }

  /** The number whose bits, most significant first, are s. */
  function CodeValue(s: BitString): nat {
    if s == [] then 0 else 2 * CodeValue(s[..|s| - 1]) + B2N(s[|s| - 1])
  }

  /** The bits of a byte sequence in Deflate order: low bit of the first byte first. */
  function StreamBits(data: seq<Byte>): (s: BitString)
    ensures |s| == 8 * |data|
  {
    seq(8 * |data|, i requires 0 <= i < 8 * |data| => Bit(data[i / 8], i % 8))
  }

  /** The value v, n times. */
  function Copies<T>(v: T, n: nat): (s: seq<T>)
    ensures |s| == n && forall i :: 0 <= i < n ==> s[i] == v
  {
    if n == 0 then [] else Copies(v, n - 1) + [v]
  }

  predicate AllZero(s: BitString) { forall i :: 0 <= i < |s| ==> !s[i] }

  lemma Pow2Small()
    ensures Pow2(1) == 2 && Pow2(2) == 4 && Pow2(3) == 8 && Pow2(4) == 16 && Pow2(5) == 32 && Pow2(6) == 64
    ensures Pow2(7) == 128 && Pow2(8) == 256 && Pow2(9) == 512 && Pow2(10) == 1024 && Pow2(11) == 2048
    ensures Pow2(12) == 4096 && Pow2(13) == 8192 && Pow2(14) == 16384 && Pow2(15) == 32768
  {
    assert Pow2(4) == 16;
    assert Pow2(8) == 256;
    assert Pow2(12) == 4096;
  }

  lemma Pow2Add(a: nat, b: nat)
    ensures Pow2(a + b) == Pow2(a) * Pow2(b)
  {
    if a > 0 { Pow2Add(a - 1, b); }
  }

  lemma Pow2Monotone(a: nat, b: nat)
    requires a <= b
    ensures Pow2(a) <= Pow2(b)
  {
    if a < b { Pow2Monotone(a, b - 1); }
  }

  lemma LowBitsAt(v: nat, n: nat, i: nat)
    requires i < n
    ensures LowBits(v, n)[i] == Bit(v, i)
  {
    if i > 0 { LowBitsAt(v / 2, n - 1, i - 1); }
  }

  /** A 16-bit number is written as its low byte and then its high byte. */
  lemma LowBitsWord(v: nat)
    requires v < 65536
    ensures LowBits(v, 16) == LowBits(v % 256, 8) + LowBits(v / 256, 8)
  {
    assert Pow2(8) == 256;
    LowBitsSplit(v % 256, v / 256, 8, 8);
  }

  lemma {:induction false} LowBitsSplit(lo: nat, hi: nat, m: nat, n: nat)
    requires lo < Pow2(m)
    ensures LowBits(lo + hi * Pow2(m), m + n) == LowBits(lo, m) + LowBits(hi, n)
  {
    if m > 0 {
      var p := Pow2(m - 1);
      TimesTwo(hi, p);
      LowBitsSplit(lo / 2, hi, m - 1, n);
      var v := lo + hi * Pow2(m);
      assert v / 2 == lo / 2 + hi * p && v % 2 == lo % 2;
    }
  }

  lemma CodeBitsAt(v: nat, n: nat, i: nat)
    requires i < n
    ensures CodeBits(v, n)[i] == Bit(v, n - 1 - i)
  {
    if i < n - 1 { CodeBitsAt(v / 2, n - 1, i); }
  }

  lemma {:induction false} ValueBound(s: BitString)
    ensures Value(s) < Pow2(|s|)
  {
    if s != [] { ValueBound(s[1..]); }
  }

  /** Writing the n low bits and reading them back gives the number. */
  lemma {:induction false} ValueOfLowBits(v: nat, n: nat)
    requires v < Pow2(n)
    ensures Value(LowBits(v, n)) == v
  {
    if n > 0 {
      ValueOfLowBits(v / 2, n - 1);
      assert LowBits(v, n)[1..] == LowBits(v / 2, n - 1);
    }
  }

  lemma {:induction false} ValueAppend(s: BitString, b: bool)
    ensures Value(s + [b]) == Value(s) + B2N(b) * Pow2(|s|)
  {
    if s == [] {
      assert (s + [b])[1..] == [];
    } else {
      ValueAppend(s[1..], b);
      assert (s + [b])[1..] == s[1..] + [b];
    }
  }

  lemma {:induction false} ValueConcat(a: BitString, b: BitString)
    ensures Value(a + b) == Value(a) + Value(b) * Pow2(|a|)
  {
    if a == [] {
      assert a + b == b;
    } else {
      ValueConcat(a[1..], b);
      assert (a + b)[1..] == a[1..] + b;
      TimesTwo(Value(b), Pow2(|a| - 1));
    }
  }

  lemma TimesTwo(v: nat, p: nat)
    ensures v * (2 * p) == 2 * (v * p)
  {
  }

  lemma {:induction false} CodeValueBound(s: BitString)
    ensures CodeValue(s) < Pow2(|s|)
  {
    if s != [] { CodeValueBound(s[..|s| - 1]); }
  }

  lemma {:induction false} CodeValueOfCodeBits(v: nat, n: nat)
    requires v < Pow2(n)
    ensures CodeValue(CodeBits(v, n)) == v
  {
    if n > 0 {
      CodeValueOfCodeBits(v / 2, n - 1);
      var c := CodeBits(v, n);
      assert c == CodeBits(v / 2, n - 1) + [v % 2 == 1];
      assert c[..n - 1] == CodeBits(v / 2, n - 1) && c[n - 1] == (v % 2 == 1);
    }
  }

  lemma {:induction false} CodeBitsOfCodeValue(s: BitString)
    ensures CodeBits(CodeValue(s), |s|) == s
  {
    if s != [] {
      var front := s[..|s| - 1];
      CodeBitsOfCodeValue(front);
      assert CodeValue(s) / 2 == CodeValue(front);
      assert s == front + [s[|s| - 1]];
    }
  }

  /** Bits above the n written ones do not reach the stream. */
  lemma {:induction false} CodeBitsIgnoreHigh(v: nat, k: nat, n: nat)
    ensures CodeBits(v + k * Pow2(n), n) == CodeBits(v, n)
  {
    if n > 0 {
      var w := v + k * Pow2(n);
      assert k * Pow2(n) == 2 * (k * Pow2(n - 1));
      assert w / 2 == v / 2 + k * Pow2(n - 1) && w % 2 == v % 2;
      CodeBitsIgnoreHigh(v / 2, k, n - 1);
    }
  }

  /** v >> k. */
  function Shr(v: nat, k: nat): nat {
    if k == 0 then v else Shr(v / 2, k - 1)
  }

  lemma {:induction false} ShrInterval(v: nat, k: nat)
    ensures Shr(v, k) * Pow2(k) <= v < (Shr(v, k) + 1) * Pow2(k)
  {
    if k > 0 {
      ShrInterval(v / 2, k - 1);
      Doubled(v, Shr(v, k), Pow2(k - 1));
    }
  }

  lemma Doubled(v: nat, q: nat, p: nat)
    requires q * p <= v / 2 < (q + 1) * p
    ensures q * (2 * p) <= v < (q + 1) * (2 * p)
  {
    assert q * (2 * p) == 2 * (q * p) && (q + 1) * (2 * p) == 2 * ((q + 1) * p);
  }

  /** The first m of n code bits are the code bits of v >> (n - m). */
  lemma {:induction false} CodeBitsPrefix(v: nat, n: nat, m: nat)
    requires m <= n
    ensures CodeBits(v, n)[..m] == CodeBits(Shr(v, n - m), m)
  {
    if m < n {
      CodeBitsPrefix(v / 2, n - 1, m);
      assert CodeBits(v, n)[..m] == CodeBits(v / 2, n - 1)[..m];
    }
  }

  lemma MulAtLeast(q: int, d: int)
    requires d >= 0
    ensures q >= 1 ==> q * d >= d
    ensures q <= -1 ==> q * d <= -d
  {
    var p := (if q >= 0 then q - 1 else -q - 1) * d;
  }

  lemma MulBounds(q: int, d: int, r: int)
    requires q * d == r && -d < r < d
    ensures q == 0
  {
    MulAtLeast(q, d);
  }

  lemma DivUnique(v: int, d: int, q: int, r: int)
    requires d > 0 && v == q * d + r && 0 <= r < d
    ensures v / d == q && v % d == r
  {
    var q', r' := v / d, v % d;
    assert v == q' * d + r';
    assert (q - q') * d == q * d - q' * d;
    MulBounds(q - q', d, r' - r);
  }

  /** Or-ing a bit into a value changes that bit only. */
  lemma {:induction false} OrBitAt(v: nat, i: nat, j: nat)
    ensures Bit(OrBit(v, i), j) == (j == i || Bit(v, j))
  {
    if !Bit(v, i) {
      if i == 0 {
        assert (v + 1) / 2 == v / 2;
      } else {
        assert (v + Pow2(i)) / 2 == v / 2 + Pow2(i - 1) && (v + Pow2(i)) % 2 == v % 2;
        if j > 0 { OrBitAt(v / 2, i - 1, j - 1); }
      }
    }
  }

  lemma {:induction false} OrBitBound(v: nat, i: nat, n: nat)
    requires i < n && v < Pow2(n)
    ensures OrBit(v, i) < Pow2(n)
  {
    hide Pow2, Bit;
    if !Bit(v, i) {
      TwiceAs(n);
      if i == 0 {
        NotBitZero(v);
      } else {
        TwiceAs(i);
        SameHalf(v, i);
        OrBitBound(v / 2, i - 1, n - 1);
      }
    }
  }

  lemma TwiceAs(n: nat)
    requires n > 0
    ensures Pow2(n) == 2 * Pow2(n - 1) && Pow2(0) == 1
  {
  }

  lemma NotBitZero(v: nat)
    requires !Bit(v, 0)
    ensures v % 2 == 0
  {
  }

  lemma SameHalf(v: nat, i: nat)
    requires i > 0
    ensures Bit(v, i) == Bit(v / 2, i - 1)
  {
  }

  lemma ByteOr(b: Byte, i: nat)
    requires i < 8
    ensures OrBit(b, i) < 256
  {
    assert Pow2(8) == 256;
    OrBitBound(b, i, 8);
  }

  lemma ZeroBit(i: nat)
    ensures !Bit(0, i)
  {
  }
}
