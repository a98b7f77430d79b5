/**
 * The bit stream of entropy-coded JPEG data: byte stuffing (section F.1.2.3 of T.81), the encoder's 24-bit
 * buffer and the decoder's 32-bit buffer (compositor/jpge.cpp:603-615, compositor/jpgd.cpp:363-489).
 */
module JpegBits {
  import opened Bits
  import opened Canonical
  import opened PixelBits
  import opened WordBits

  // ---- Byte stuffing ----

  /** A zero byte after every byte 0xFF. */
  function Stuff(u: seq<Byte>): seq<Byte> {
    if u == [] then [] else StuffByte(u[0]) + Stuff(u[1..])
  }

  function StuffByte(c: Byte): seq<Byte> { if c == 255 then [255, 0] else [c] }

  lemma {:induction false} StuffAppend(u: seq<Byte>, c: Byte)
    ensures Stuff(u + [c]) == Stuff(u) + StuffByte(c)
  {
    if u == [] {
      assert [c][1..] == [];
    } else {
      assert (u + [c])[1..] == u[1..] + [c];
      StuffAppend(u[1..], c);
    }
  }

  lemma BitsOfPush(u: seq<Byte>, c: Byte)
    ensures BitsOf(u + [c]) == BitsOf(u) + CodeBits(c, 8)
  {
    hide Bit;
    var s, t := BitsOf(u + [c]), BitsOf(u) + CodeBits(c, 8);
    forall i | 0 <= i < 8 * |u| + 8 ensures s[i] == t[i] {
      if i >= 8 * |u| {
        CodeBitsAt(c, 8, i - 8 * |u|);
      }
    }
  }

  // ---- The encoder's buffer ----

  class BitPutter {
    var out: seq<Byte>
    var bit_buffer: nat
    var bits_in: nat
    /** The bytes before stuffing, and the bits that do not fill a byte yet. */
    ghost var plain: seq<Byte>
    ghost var pending: BitString

    ghost predicate Valid()
      reads this
    {
      && bits_in == |pending| < 8 && out == Stuff(plain)
      && HoldsBits(bit_buffer % 0x100_0000, 24, pending)
    }

    /** Everything put so far. */
    ghost function Written(): BitString
      reads this
    {
      BitsOf(plain) + pending
    }

    constructor ()
      ensures Valid() && Written() == [] && out == [] && plain == [] && pending == []
    {
      out, bit_buffer, bits_in, plain, pending := [], 0, 0, [], [];
    }

    method PutByte(c: Byte)
      modifies this`out
      ensures out == old(out) + [c]
    {
      out := out + [c];
    }

    /** put_bits: whole bytes leave the buffer, stuffed; the rest stays. */
    method PutBits(bits: nat, len: nat)
      requires Valid() && len <= 16 && bits < Pow2(len)
      modifies this
      ensures Valid() && Written() == old(Written()) + CodeBits(bits, len)
    {
      hide HoldsBits, BitsOf, Or, Pow2, CodeBits;
      bits_in := bits_in + len;
      OrLow(bit_buffer, pending, bits, len);
      bit_buffer := Or(bit_buffer, bits * Pow2(24 - bits_in)) % WORD;
      pending := pending + CodeBits(bits, len);
      assert BitsOf(plain) + pending == old(Written()) + CodeBits(bits, len);
      while bits_in >= 8
        invariant bits_in == |pending| <= 24 && out == Stuff(plain)
        invariant HoldsBits(bit_buffer % 0x100_0000, 24, pending)
        invariant BitsOf(plain) + pending == old(Written()) + CodeBits(bits, len)
      {
        ByteReady();
      }
    }

    /** A whole byte leaves the buffer; a zero byte follows if it is 0xFF. */
    method ByteReady()
      requires 8 <= bits_in == |pending| <= 24 && out == Stuff(plain)
      requires HoldsBits(bit_buffer % 0x100_0000, 24, pending)
      modifies this
      ensures bits_in == |pending| == old(bits_in) - 8 && out == Stuff(plain)
      ensures HoldsBits(bit_buffer % 0x100_0000, 24, pending)
      ensures BitsOf(plain) + pending == old(BitsOf(plain) + pending)
    {
      hide HoldsBits, BitsOf, CodeBits, Stuff;
      var c: Byte := bit_buffer / 65536 % 256;
      ByteOut(bit_buffer, pending);
      PutByte(c);
      if c == 255 { PutByte(0); }
      bit_buffer := bit_buffer * 256 % WORD;
      bits_in := bits_in - 8;
      StuffAppend(plain, c);
      BitsOfPush(plain, c);
      assert pending == pending[..8] + pending[8..];
      plain, pending := plain + [c], pending[8..];
    }
  }

  /** The bits above the 24 in use do not matter. */
  lemma OrLow(buffer: nat, pending: BitString, bits: nat, len: nat)
    requires HoldsBits(buffer % 0x100_0000, 24, pending) && |pending| + len <= 24 && bits < Pow2(len)
    ensures HoldsBits(Or(buffer, bits * Pow2(24 - |pending| - len)) % WORD % 0x100_0000, 24, pending + CodeBits(bits, len))
  {
    hide CodeBits, Pow2, CodeValue, Or, HoldsBits;
    var low, high, added := buffer % 0x100_0000, buffer / 0x100_0000, bits * Pow2(24 - |pending| - len);
    AddBitsToWord(low, 24, pending, bits, len);
    HoldsBound(Or(low, added), 24, pending + CodeBits(bits, len));
    WordPower();
    OrAbove(high, low, pending, bits, len, 24 - |pending| - len);
    LowPart(high, Or(low, added));
  }

  lemma OrAbove(high: nat, low: nat, pending: BitString, bits: nat, len: nat, k: nat)
    requires HoldsBits(low, 24, pending) && |pending| + len + k == 24 && bits < Pow2(len)
    ensures Or(high * 0x100_0000 + low, bits * Pow2(k)) == high * 0x100_0000 + Or(low, bits * Pow2(k))
  {
    hide Pow2, CodeValue, Or;
    Pow2Add(len, k);
    FitsBelow(bits, Pow2(len), Pow2(k));
    WordPower();
    Pow2Add(|pending|, 24 - |pending|);
    OrHigh(high, Pow2(|pending|), CodeValue(pending), bits * Pow2(k), 24 - |pending|);
  }

  lemma OrHigh(high: nat, p: nat, c: nat, b: nat, n: nat)
    requires b < Pow2(n)
    ensures Or(high * (p * Pow2(n)) + c * Pow2(n), b) == high * (p * Pow2(n)) + Or(c * Pow2(n), b)
  {
    hide Or, Pow2;
    Distribute(high, p, c, Pow2(n));
    OrDisjoint(high * p + c, b, n);
    OrDisjoint(c, b, n);
  }

  lemma FitsBelow(bits: nat, l: nat, k: nat)
    requires bits < l && k > 0
    ensures bits * k < l * k
  {
    MulMonotone(bits + 1, l, k);
    TimesPlusOne(bits, k);
  }

  lemma LowPart(high: nat, low: nat)
    requires low < 0x100_0000
    ensures (high * 0x100_0000 + low) % WORD % 0x100_0000 == low
  {
  }

  /** The byte at the top of the 24 bits, and what is left after it. */
  lemma ByteOut(buffer: nat, pending: BitString)
    requires HoldsBits(buffer % 0x100_0000, 24, pending) && 8 <= |pending| <= 24
    ensures CodeBits(buffer / 65536 % 256, 8) == pending[..8]
    ensures HoldsBits(buffer * 256 % WORD % 0x100_0000, 24, pending[8..])
  {
    hide CodeBits, Pow2, CodeValue;
    var a, b := pending[..8], pending[8..];
    assert pending == a + b;
    HoldsSplit(buffer % 0x100_0000, 24, a, b);
    WordPower();
    TopByte(buffer, CodeValue(a), CodeValue(b) * Pow2(16 - |b|));
    CodeBitsOfCodeValue(a);
    CodeValueBound(a);
    Pow2Add(8, 16 - |b|);
    TimesAssoc(CodeValue(b), Pow2(16 - |b|));
  }

  lemma TimesAssoc(v: nat, p: nat)
    ensures v * p * 256 == v * (256 * p)
  {
  }

  lemma TopByte(buffer: nat, a: nat, rest: nat)
    requires buffer % 0x100_0000 == a * 65536 + rest && rest < 65536
    ensures buffer / 65536 % 256 == a
    ensures buffer * 256 % WORD % 0x100_0000 == rest * 256
  {
    var h := buffer / 0x100_0000;
    DivUnique(buffer, 65536, h * 256 + a, rest);
    assert buffer * 256 == h * WORD + (a * 0x100_0000 + rest * 256);
    DivUnique(buffer * 256, WORD, h, a * 0x100_0000 + rest * 256);
  }
}
