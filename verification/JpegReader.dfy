/** The decoder's side of the entropy-coded bit stream (compositor/jpgd.cpp:363-424, 455-489, 1750-1754). */
module JpegReader {
  import opened Bits
  import opened Canonical
  import opened PixelBits
  import opened JpegBits
  import opened WordBits

  // ---- Reference: the bits of the bytes, and ones after them ----

  /** The bytes without stuffing; at a marker the stream goes on with 0xFF. */
  function Octet(u: seq<Byte>, k: nat): Byte { if k < |u| then u[k] else 255 }

  predicate StreamBit(u: seq<Byte>, i: nat) { Bit(Octet(u, i / 8), 7 - i % 8) }

  /** n bits of the stream from bit a on. */
  function Ahead(u: seq<Byte>, a: nat, n: nat): (s: BitString)
    ensures |s| == n
  {
    seq(n, i requires 0 <= i < n => StreamBit(u, a + i))
  }

  lemma AheadConcat(u: seq<Byte>, a: nat, m: nat, n: nat)
    ensures Ahead(u, a, m + n) == Ahead(u, a, m) + Ahead(u, a + m, n)
  {
  }

  /** Two bit strings that lie ahead one after the other. */
  lemma AheadSplit(u: seq<Byte>, at: nat, a: BitString, b: BitString)
    requires Ahead(u, at, |a| + |b|) == a + b
    ensures Ahead(u, at, |a|) == a && Ahead(u, at + |a|, |b|) == b
  {
    hide Ahead;
    AheadConcat(u, at, |a|, |b|);
    var x, y := Ahead(u, at, |a|), Ahead(u, at + |a|, |b|);
    assert (a + b)[..|a|] == a && (x + y)[..|a|] == x;
    assert (a + b)[|a|..] == b && (x + y)[|a|..] == y;
  }

  lemma AheadOctet(u: seq<Byte>, k: nat)
    ensures Ahead(u, 8 * k, 8) == CodeBits(Octet(u, k), 8)
  {
    hide Bit;
    forall i | 0 <= i < 8 ensures Ahead(u, 8 * k, 8)[i] == CodeBits(Octet(u, k), 8)[i] {
      CodeBitsAt(Octet(u, k), 8, i);
      var j := 8 * k + i;
      assert j / 8 == k && j % 8 == i;
      assert StreamBit(u, j) == Bit(Octet(u, k), 7 - i);
    }
  }

  /** Within the bytes, the stream is their bits. */
  lemma AheadIsBits(u: seq<Byte>, a: nat, n: nat)
    requires a + n <= 8 * |u|
    ensures Ahead(u, a, n) == BitsOf(u)[a..a + n]
  {
    hide Bit;
    forall i | 0 <= i < n ensures Ahead(u, a, n)[i] == BitsOf(u)[a..a + n][i] {
      var j := a + i;
      assert j / 8 < |u|;
      assert BitsOf(u)[j] == Bit(u[j / 8], 7 - j % 8) == StreamBit(u, j);
    }
  }

  /** A marker: 0xFF and a byte other than zero. */
  predicate Marker(s: seq<Byte>) { |s| >= 2 && s[0] == 255 && s[1] != 0 }

  /** From pos on, the data hold the stuffed bytes of u from k on, and then a marker. */
  ghost predicate Feeds(data: seq<Byte>, pos: nat, u: seq<Byte>, k: nat) {
    && k <= |u| && pos + |Stuff(u[k..])| <= |data|
    && data[pos..pos + |Stuff(u[k..])|] == Stuff(u[k..])
    && Marker(data[pos + |Stuff(u[k..])|..])
  }

  lemma FeedsStep(data: seq<Byte>, pos: nat, u: seq<Byte>, k: nat)
    requires Feeds(data, pos, u, k) && k < |u|
    ensures pos + 2 <= |data| && data[pos] == u[k]
    ensures u[k] == 255 ==> data[pos + 1] == 0 && Feeds(data, pos + 2, u, k + 1)
    ensures u[k] != 255 ==> Feeds(data, pos + 1, u, k + 1)
  {
    var rest := Stuff(u[k + 1..]);
    assert u[k..][1..] == u[k + 1..];
    assert Stuff(u[k..]) == StuffByte(u[k]) + rest;
    var s := data[pos..pos + |Stuff(u[k..])|];
    var m := |StuffByte(u[k])|;
    assert s[0] == u[k] && (u[k] == 255 ==> s[1] == 0);
    assert data[pos + m..pos + m + |rest|] == s[m..] == rest;
  }

  lemma FeedsMarker(data: seq<Byte>, pos: nat, u: seq<Byte>)
    requires Feeds(data, pos, u, |u|)
    ensures pos + 2 <= |data| && data[pos] == 255 && data[pos + 1] != 0
  {
    assert u[|u|..] == [];
    assert data[pos..] == data[pos + 0..];
  }

  // ---- The reader ----

  class BitReader {
    const data: seq<Byte>
    var pos: nat
    var tem_flag: bool
    var bit_buf: nat
    var bits_left: int
    /** The bytes before stuffing, how many of them have been fetched, and the position in their bits. */
    ghost const u: seq<Byte>
    ghost var taken: nat
    ghost var bp: nat

    /** Where the input stands. */
    ghost predicate Fed()
      reads this`pos, this`taken
    {
      Feeds(data, pos, u, if taken <= |u| then taken else |u|)
    }

    /** The bit buffer: bits_left + 16 bits of the stream at its upper end, zeros below. */
    ghost predicate Valid()
      reads this`pos, this`taken, this`bit_buf, this`bits_left, this`bp
    {
      && Fed() && 0 <= bits_left <= 16
      && bp + bits_left + 16 == 8 * taken
      && HoldsBits(bit_buf, 32, Ahead(u, bp, bits_left + 16))
    }

    /** Starts at pos, with whatever the bit buffer held before. */
    constructor (data: seq<Byte>, pos: nat, garbage: nat, ghost u: seq<Byte>)
      requires Feeds(data, pos, u, 0)
      ensures this.data == data && this.u == u && Valid() && bp == 0
    {
      this.data, this.pos, this.tem_flag, this.bit_buf, this.bits_left := data, pos, false, garbage, 16;
      this.u, this.taken, this.bp := u, 0, 0;
      new;
      Prime();
    }

    /** Two fetches of 16 bits with an empty buffer: the first pushes the old content up, the second out. */
    method Prime()
      requires Fed() && taken == 0 && bp == 0
      modifies this`pos, this`tem_flag, this`taken, this`bit_buf, this`bits_left
      ensures Valid()
    {
      hide Or, Shl32, Octet, HoldsBits, Ahead, Feeds;
      ghost var garbage := bit_buf;
      bits_left := 16;
      var octets := TwoOctets();
      bit_buf := Or(Shl32(bit_buf, 16), octets);
      octets := TwoOctets();
      bit_buf := Or(Shl32(bit_buf, 16), octets);
      Primed(u, garbage);
    }

    /** One byte of input; past its end the bytes of an end marker by turns. */
    method GetChar() returns (c: Byte, padding: bool)
      requires pos <= |data|
      modifies this`pos, this`tem_flag
      ensures padding == (old(pos) == |data|)
      ensures !padding ==> c == data[old(pos)] && pos == old(pos) + 1
      ensures padding ==> pos == old(pos) && (c == 255 || c == 217)
    {
      if pos == |data| {
        padding := true;
        var t := tem_flag;
        tem_flag := !tem_flag;
        c := if t then 217 else 255;
      } else {
        padding := false;
        c := data[pos];
        pos := pos + 1;
      }
    }

    /** Gives back a byte that was read. */
    method StuffChar(q: Byte)
      requires 0 < pos <= |data| && data[pos - 1] == q
      modifies this`pos
      ensures pos == old(pos) - 1
    {
      pos := pos - 1;
    }

    /** get_octet: the next byte without its stuffing; at a marker 0xFF, as often as asked. */
    method GetOctet() returns (r: Byte)
      requires Fed()
      modifies this`pos, this`tem_flag, this`taken
      ensures Fed() && taken == old(taken) + 1 && r == Octet(u, old(taken))
    {
      hide Feeds;
      ghost var k := if taken <= |u| then taken else |u|;
      if k < |u| { FeedsStep(data, pos, u, k); } else { FeedsMarker(data, pos, u); }
      ghost var start := pos;
      taken := taken + 1;
      var c, padding_flag := GetChar();
      if c == 255 {
        if padding_flag { assert false; }
        var d, padding := GetChar();
        if padding {
          assert false;
        }
        if d == 0 { return 255; }
        StuffChar(d);
        StuffChar(255);
        assert pos == start;
        return 255;
      }
      return c;
    }

    /** get_bits_no_markers: the next bits of the stream as a number. */
    method GetBits(num_bits: nat) returns (i: nat)
      requires Valid() && num_bits <= bits_left + 16 && num_bits <= 31
      modifies this`pos, this`tem_flag, this`taken, this`bit_buf, this`bits_left, this`bp
      ensures Valid() && bp == old(bp) + num_bits
      ensures i == CodeValue(Ahead(u, old(bp), num_bits))
    {
      hide HoldsBits, Feeds, Or, Shl32, Ahead;
      if num_bits == 0 { return 0; }
      ghost var at, held := bp, bits_left + 16;
      AheadConcat(u, at, num_bits, held - num_bits);
      TopBits(bit_buf, 32, Ahead(u, at, num_bits), Ahead(u, at + num_bits, held - num_bits));
      i := Shr(bit_buf, 32 - num_bits);
      bits_left := bits_left - num_bits;
      if bits_left <= 0 {
        var before := num_bits + bits_left;
        AheadConcat(u, at, before, 16);
        DropBits(bit_buf, Ahead(u, at, before), Ahead(u, at + before, 16));
        bit_buf := Shl32(bit_buf, before);
        var octets;
        octets := TwoOctets();
        Refill(u, bit_buf, at + before, taken - 2);
        bit_buf := Or(bit_buf, octets);
        var over := -bits_left;
        AheadConcat(u, at + before, over, 32 - over);
        DropBits(bit_buf, Ahead(u, at + before, over), Ahead(u, at + before + over, 32 - over));
        bit_buf := Shl32(bit_buf, over);
        bits_left := bits_left + 16;
      } else {
        DropBits(bit_buf, Ahead(u, at, num_bits), Ahead(u, at + num_bits, held - num_bits));
        bit_buf := Shl32(bit_buf, num_bits);
      }
      bp := bp + num_bits;
    }

    /** The next two bytes as one number, read directly if neither can be part of a marker. */
    method TwoOctets() returns (r: nat)
      requires Fed()
      modifies this`pos, this`tem_flag, this`taken
      ensures Fed() && taken == old(taken) + 2
      ensures r == 256 * (Octet(u, old(taken)) as int) + Octet(u, old(taken) + 1)
    {
      hide Feeds;
      ghost var k := if taken <= |u| then taken else |u|;
      if k < |u| { FeedsStep(data, pos, u, k); } else { FeedsMarker(data, pos, u); }
      if |data| - pos < 2 || data[pos] == 255 || data[pos + 1] == 255 {
        var c1 := GetOctet();
        var c2 := GetOctet();
        r := 256 * (c1 as int) + c2;
      } else {
        if k + 1 < |u| { FeedsStep(data, pos + 1, u, k + 1); } else { FeedsMarker(data, pos + 1, u); }
        r := 256 * (data[pos] as int) + data[pos + 1];
        pos := pos + 2;
        taken := taken + 2;
      }
    }
  }

  lemma OctetBits(a: Byte, b: Byte)
    ensures CodeBits(256 * (a as int) + b, 16) == CodeBits(a, 8) + CodeBits(b, 8)
    ensures 256 * (a as int) + b < Pow2(16)
  {
    hide CodeBits, Pow2, CodeValue;
    var s := CodeBits(a, 8) + CodeBits(b, 8);
    WordPower();
    CodeValueConcat(CodeBits(a, 8), CodeBits(b, 8));
    CodeValueOfCodeBits(a, 8);
    CodeValueOfCodeBits(b, 8);
    CodeBitsOfCodeValue(s);
  }

  /** Two more bytes in the lower half of the word. */
  lemma Refill(u: seq<Byte>, word: nat, at: nat, k: nat)
    requires HoldsBits(word, 32, Ahead(u, at, 16)) && at + 16 == 8 * k
    ensures HoldsBits(Or(word, 256 * (Octet(u, k) as int) + Octet(u, k + 1)), 32, Ahead(u, at, 32))
  {
    hide HoldsBits, Or, CodeBits, Octet, Pow2;
    var bits := 256 * (Octet(u, k) as int) + Octet(u, k + 1);
    OctetBits(Octet(u, k), Octet(u, k + 1));
    AddBitsToWord(word, 32, Ahead(u, at, 16), bits, 16);
    ShiftByNone(bits);
    AheadConcat(u, at, 16, 16);
    AheadConcat(u, at + 16, 8, 8);
    AheadOctet(u, k);
    AheadOctet(u, k + 1);
  }

  lemma ShiftByNone(bits: nat)
    ensures bits * Pow2(32 - 16 - 16) == bits
  {
  }

  /** After two fetches nothing of the old content is left. */
  lemma Primed(u: seq<Byte>, garbage: nat)
    ensures
      var first, second := 256 * (Octet(u, 0) as int) + Octet(u, 1), 256 * (Octet(u, 2) as int) + Octet(u, 3);
      HoldsBits(Or(Shl32(Or(Shl32(garbage, 16), first), 16), second), 32, Ahead(u, 0, 32))
  {
    hide CodeBits, Octet, Ahead;
    var first, second := 256 * (Octet(u, 0) as int) + Octet(u, 1), 256 * (Octet(u, 2) as int) + Octet(u, 3);
    OctetBits(Octet(u, 0), Octet(u, 1));
    AheadConcat(u, 0, 8, 8);
    AheadOctet(u, 0);
    AheadOctet(u, 1);
    var s := Ahead(u, 0, 16);
    CodeValueOfCodeBits(first, 16);
    assert CodeValue(s) == first;
    PushedOut(garbage, first);
    assert HoldsBits(Shl32(Or(Shl32(garbage, 16), first), 16), 32, s) by { WordPower(); }
    Refill(u, Shl32(Or(Shl32(garbage, 16), first), 16), 0, 2);
  }

  lemma PushedOut(garbage: nat, first: nat)
    requires first < Pow2(16)
    ensures Shl32(Or(Shl32(garbage, 16), first), 16) == first * Pow2(16)
  {
    hide Or;
    WordPower();
    var g := garbage % 65536;
    assert Shl32(garbage, 16) == g * 65536;
    OrDisjoint(g, first, 16);
    assert (g * 65536 + first) * 65536 == g * WORD + first * 65536;
  }
}
