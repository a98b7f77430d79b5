/** Bits in the words that serve as buffers: the used ones at the upper end, zeros below. */
module WordBits {
  import opened Bits
  import opened Canonical

  const WORD: nat := 0x1_0000_0000

  // ---- Numbers as bits, most significant first ----

  function Or(a: nat, b: nat): nat {
    if a == 0 then b else if b == 0 then a
    else 2 * Or(a / 2, b / 2) + (if a % 2 == 1 || b % 2 == 1 then 1 else 0)
  }

  /** Or-ing into bits that are zero is adding. */
  lemma {:induction false} OrDisjoint(a: nat, b: nat, k: nat)
    requires b < Pow2(k)
    ensures Or(a * Pow2(k), b) == a * Pow2(k) + b
  {
    if a == 0 || b == 0 || k == 0 {
    } else {
      var p := Pow2(k - 1);
      assert a * Pow2(k) == 2 * (a * p);
      OrDisjoint(a, b / 2, k - 1);
    }
  }

  /** The shift to the left of a 32-bit word. */
  function Shl32(v: nat, k: nat): (r: nat)
    ensures r < WORD
  {
    v * Pow2(k) % WORD
  }

  lemma CodeValuePush(s: BitString, bit: bool)
    ensures CodeValue(s + [bit]) == 2 * CodeValue(s) + B2N(bit)
  {
    assert (s + [bit])[..|s|] == s;
  }

  lemma {:induction false} CodeValueConcat(a: BitString, b: BitString)
    ensures CodeValue(a + b) == CodeValue(a) * Pow2(|b|) + CodeValue(b)
  {
    if b == [] {
      assert a + b == a;
    } else {
      hide CodeValue;
      var front, last := b[..|b| - 1], b[|b| - 1];
      assert a + b == a + front + [last] && b == front + [last];
      CodeValuePush(a + front, last);
      CodeValuePush(front, last);
      CodeValueConcat(a, front);
      TimesTwo(CodeValue(a), Pow2(|front|));
    }
  }

  /** A word that holds the bits s at its upper end and zeros below. */
  ghost predicate HoldsBits(word: nat, width: nat, s: BitString) {
    |s| <= width && word == CodeValue(s) * Pow2(width - |s|)
  }

  lemma HoldsBound(word: nat, width: nat, s: BitString)
    requires HoldsBits(word, width, s)
    ensures word < Pow2(width)
  {
    CodeValueBound(s);
    Pow2Add(|s|, width - |s|);
    MulMonotone(CodeValue(s) + 1, Pow2(|s|), Pow2(width - |s|));
    TimesPlusOne(CodeValue(s), Pow2(width - |s|));
  }

  lemma HoldsSplit(word: nat, width: nat, a: BitString, b: BitString)
    requires HoldsBits(word, width, a + b)
    ensures word == CodeValue(a) * Pow2(width - |a|) + CodeValue(b) * Pow2(width - |a| - |b|)
    ensures CodeValue(b) * Pow2(width - |a| - |b|) < Pow2(width - |a|)
  {
    CodeValueConcat(a, b);
    var r := width - |a| - |b|;
    Pow2Add(|b|, r);
    Distribute(CodeValue(a), Pow2(|b|), CodeValue(b), Pow2(r));
    HoldsBound(CodeValue(b) * Pow2(r), width - |a|, b);
  }

  lemma Distribute(a: nat, p: nat, b: nat, r: nat)
    ensures (a * p + b) * r == a * (p * r) + b * r
  {
  }

  /** The upper bits of the word, as a number. */
  lemma TopBits(word: nat, width: nat, a: BitString, b: BitString)
    requires HoldsBits(word, width, a + b)
    ensures Shr(word, width - |a|) == CodeValue(a)
  {
    HoldsSplit(word, width, a, b);
    TimesPlusOne(CodeValue(a), Pow2(width - |a|));
    ShrBetween(word, width - |a|, CodeValue(a), CodeValue(a) + 1);
  }

  lemma WordPower()
    ensures Pow2(32) == WORD && Pow2(24) == 0x100_0000 && Pow2(16) == 65536 && Pow2(15) == 32768 && Pow2(8) == 256
  {
    Pow2Add(16, 16);
    Pow2Add(8, 16);
    assert Pow2(8) == 256 && Pow2(16) == 65536;
  }

  /** Shifting a 32-bit word drops its upper bits. */
  lemma DropBits(word: nat, a: BitString, b: BitString)
    requires HoldsBits(word, 32, a + b)
    ensures HoldsBits(Shl32(word, |a|), 32, b)
  {
    hide Pow2, CodeValue;
    HoldsSplit(word, 32, a, b);
    WordPower();
    Pow2Add(|a|, 32 - |a|);
    Pow2Add(|a|, 32 - |a| - |b|);
    HoldsBound(CodeValue(b) * Pow2(32 - |b|), 32, b);
    ShiftedWord(word, CodeValue(a), Pow2(32 - |a|), Pow2(|a|), CodeValue(b), Pow2(32 - |a| - |b|), WORD);
  }

  lemma ShiftedWord(w: nat, a: nat, p: nat, s: nat, b: nat, r: nat, word: nat)
    requires w == a * p + b * r && s * p == word && b * (s * r) < word
    ensures w * s % word == b * (s * r)
  {
    Shifted(a, p, s, b, r);
    DivUnique(w * s, word, a, b * (s * r));
  }

  lemma Shifted(a: nat, p: nat, s: nat, b: nat, r: nat)
    ensures (a * p + b * r) * s == a * (s * p) + b * (s * r)
  {
  }

  /** Or-ing bits into the free part of a word. */
  lemma AddBitsToWord(word: nat, width: nat, s: BitString, bits: nat, len: nat)
    requires HoldsBits(word, width, s) && |s| + len <= width && bits < Pow2(len)
    ensures HoldsBits(Or(word, bits * Pow2(width - |s| - len)), width, s + CodeBits(bits, len))
  {
    var k := width - |s| - len;
    Pow2Add(len, k);
    MulMonotone(bits + 1, Pow2(len), Pow2(k));
    TimesPlusOne(bits, Pow2(k));
    OrDisjoint(CodeValue(s), bits * Pow2(k), width - |s|);
    CodeValueConcat(s, CodeBits(bits, len));
    CodeValueOfCodeBits(bits, len);
    Distribute(CodeValue(s), Pow2(len), bits, Pow2(k));
  }
}
