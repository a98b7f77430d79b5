/** The bit writer and bit reader of the deflate engine (lodepng.c:429-462). */
module BitStream {
  import opened Bits

  lemma StreamBitsPush(data: seq<Byte>, b: Byte)
    ensures StreamBits(data + [b]) == StreamBits(data) + LowBits(b, 8)
  {
    forall i | 0 <= i < 8
      ensures StreamBits(data + [b])[8 * |data| + i] == LowBits(b, 8)[i]
    {
      LowBitsAt(b, 8, i);
    }
  }

  lemma StreamBitsPushZero(data: seq<Byte>)
    ensures StreamBits(data + [0]) == StreamBits(data) + [false, false, false, false, false, false, false, false]
  {
    StreamBitsPush(data, 0);
    forall i | 0 <= i < 8 ensures !LowBits(0, 8)[i] {
      LowBitsAt(0, 8, i);
      ZeroBit(i);
    }
  }

  /** Or-ing a bit into the last byte sets exactly that position of the stream. */
  lemma StreamBitsOr(data: seq<Byte>, p: nat)
    requires data != [] && 8 * |data| - 8 <= p < 8 * |data|
    requires OrBit(data[|data| - 1], p % 8) < 256
    ensures StreamBits(data[|data| - 1 := OrBit(data[|data| - 1], p % 8)]) == StreamBits(data)[p := true]
  {
    var last := |data| - 1;
    var b := OrBit(data[last], p % 8);
    var s, t := StreamBits(data), StreamBits(data[last := b]);
    forall i | 0 <= i < |s|
      ensures t[i] == s[p := true][i]
    {
      if i / 8 == last {
        OrBitAt(data[last], p % 8, i % 8);
      }
    }
  }

  /** The data holds bp bits, in as few bytes as possible, followed by zeros. */
  ghost predicate IsBuffer(data: seq<Byte>, bp: nat) {
    && bp <= 8 * |data| < bp + 8
    && AllZero(StreamBits(data)[bp..])
  }

  lemma AllZeroTail(s: BitString)
    requires AllZero(s) && s != []
    ensures AllZero(s[1..])
  {
  }

  /** Setting the first of the zero bits, or leaving it as it is. */
  lemma NextBit(s: BitString, bp: nat, bit: bool)
    requires bp < |s| && AllZero(s[bp..])
    ensures AllZero(s[bp := bit][bp + 1..]) && s[bp := bit][..bp + 1] == s[..bp] + [bit]
    ensures !bit ==> s[bp := bit] == s
  {
    assert !s[bp..][0];
    assert s[bp := bit][bp + 1..] == s[bp..][1..];
    AllZeroTail(s[bp..]);
  }

  lemma GrowBuffer(data: seq<Byte>, bp: nat)
    requires IsBuffer(data, bp) && bp % 8 == 0
    ensures bp == 8 * |data|
    ensures AllZero(StreamBits(data + [0])[bp..])
    ensures StreamBits(data + [0])[..bp] == StreamBits(data)[..bp]
  {
    StreamBitsPushZero(data);
  }

  /** The output vector together with the bit pointer that every writing call advances. */
  class BitWriter {
    var data: seq<Byte>
    var bp: nat

    ghost predicate Valid()
      reads this
    {
      IsBuffer(data, bp)
    }

    /** Everything written so far. */
    ghost function Written(): (s: BitString)
      requires Valid()
      reads this
    {
      StreamBits(data)[..bp]
    }

    constructor ()
      ensures Valid() && Written() == [] && data == []
    {
      data := [];
      bp := 0;
    }

    method AddBit(bit: bool)
      requires Valid()
      modifies this
      ensures Valid() && Written() == old(Written()) + [bit]
    {
      hide StreamBits, AllZero, OrBit, Pow2;
      if bp % 8 == 0 {
        GrowBuffer(data, bp);
        data := data + [0];
      }
      NextBit(StreamBits(data), bp, bit);
      if bit {
        var last := |data| - 1;
        ByteOr(data[last], bp % 8);
        StreamBitsOr(data, bp);
        data := data[last := OrBit(data[last], bp % 8)];
      }
      bp := bp + 1;
    }

    method AddBits(value: nat, nbits: nat)
      requires Valid()
      modifies this
      ensures Valid() && Written() == old(Written()) + LowBits(value, nbits)
    {
      for i := 0 to nbits
        invariant Valid() && Written() == old(Written()) + LowBits(value, nbits)[..i]
      {
        LowBitsAt(value, nbits, i);
        AddBit(Bit(value, i));
      }
    }

    method AddBitsReversed(value: nat, nbits: nat)
      requires Valid()
      modifies this
      ensures Valid() && Written() == old(Written()) + CodeBits(value, nbits)
    {
      for i := 0 to nbits
        invariant Valid() && Written() == old(Written()) + CodeBits(value, nbits)[..i]
      {
        CodeBitsAt(value, nbits, i);
        AddBit(Bit(value, nbits - 1 - i));
      }
    }
  }

  method ReadBit(data: seq<Byte>, bp: nat) returns (bit: bool)
    requires bp < 8 * |data|
    ensures bit == StreamBits(data)[bp]
  {
    bit := Bit(data[bp / 8], bp % 8);
  }

  method ReadBits(data: seq<Byte>, bp: nat, nbits: nat) returns (result: nat)
    requires bp + nbits <= 8 * |data|
    ensures result == Value(StreamBits(data)[bp..bp + nbits])
    ensures result < Pow2(nbits)
  {
    ghost var s := StreamBits(data);
    result := 0;
    for i := 0 to nbits
      invariant result == Value(s[bp..bp + i])
    {
      var bit := ReadBit(data, bp + i);
      ValueAppend(s[bp..bp + i], bit);
      assert s[bp..bp + i] + [bit] == s[bp..bp + i + 1];
      result := result + B2N(bit) * Pow2(i);
    }
    ValueBound(s[bp..bp + nbits]);
  }
}
