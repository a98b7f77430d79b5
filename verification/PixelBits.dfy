/** Bit access with the most significant bit first, and padding bits at the end of rows (lodepng.c:2349-2386, 4043-4068, 5334-5354). */
module PixelBits {
  import opened Bits
  import opened Memory

  /** The bits of a byte sequence in the order of pixels: high bit of the first byte first. */
  function BitsOf(data: seq<Byte>): (s: BitString)
    ensures |s| == 8 * |data|
  {
    seq(8 * |data|, i requires 0 <= i < 8 * |data| => Bit(data[i / 8], 7 - i % 8))
  }

  /** v & ~(1 << i), which takes 2^i away if the bit is set. */
  function ClearBit(v: nat, i: nat): nat {
    if Bit(v, i) then BitSize(v, i); v - Pow2(i) else v
  }

  lemma {:induction false} BitSize(v: nat, i: nat)
    requires Bit(v, i)
    ensures Pow2(i) <= v
  {
    if i > 0 { BitSize(v / 2, i - 1); }
  }

  /** Clearing a bit changes that bit only. */
  lemma {:induction false} ClearBitAt(v: nat, i: nat, j: nat)
    ensures Bit(ClearBit(v, i), j) == (j != i && Bit(v, j))
  {
    if Bit(v, i) {
      BitSize(v, i);
      if i == 0 {
        assert (v - 1) / 2 == v / 2;
      } else {
        BitSize(v / 2, i - 1);
        assert (v - Pow2(i)) / 2 == v / 2 - Pow2(i - 1) && (v - Pow2(i)) % 2 == v % 2;
        if j > 0 { ClearBitAt(v / 2, i - 1, j - 1); }
      }
    }
  }

  function WithBit(b: Byte, i: nat, bit: bool): Byte
    requires i < 8
  {
    if bit then ByteOr(b, i); OrBit(b, i) else ClearBit(b, i)
  }

  lemma WithBitAt(b: Byte, i: nat, bit: bool, j: nat)
    requires i < 8
    ensures Bit(WithBit(b, i, bit), j) == if j == i then bit else Bit(b, j)
  {
    OrBitAt(b, i, j);
    ClearBitAt(b, i, j);
  }

  /** Changing one bit of one byte changes one bit of the stream. */
  lemma BitsOfUpdate(data: seq<Byte>, p: nat, bit: bool)
    requires p < 8 * |data|
    ensures BitsOf(data[p / 8 := WithBit(data[p / 8], 7 - p % 8, bit)]) == BitsOf(data)[p := bit]
  {
    hide Bit, WithBit;
    var after := data[p / 8 := WithBit(data[p / 8], 7 - p % 8, bit)];
    forall i | 0 <= i < 8 * |data| ensures BitsOf(after)[i] == BitsOf(data)[p := bit][i] {
      WithBitAt(data[p / 8], 7 - p % 8, bit, 7 - i % 8);
    }
  }

  method ReadPixelBit(bitstream: array<Byte>, p: nat) returns (bit: bool)
    requires p < 8 * bitstream.Length
    ensures bit == BitsOf(bitstream[..])[p]
  {
    var high := Shr(bitstream[p / 8], 7 - p % 8);
    BitOfShr(bitstream[p / 8], 7 - p % 8);
    bit := high % 2 == 1;
  }

  lemma {:induction false} BitOfShr(v: nat, k: nat)
    ensures (Shr(v, k) % 2 == 1) == Bit(v, k)
  {
    if k > 0 { BitOfShr(v / 2, k - 1); }
  }

  method SetPixelBit(bitstream: array<Byte>, p: nat, bit: bool)
    requires p < 8 * bitstream.Length
    modifies bitstream
    ensures BitsOf(bitstream[..]) == old(BitsOf(bitstream[..]))[p := bit]
  {
    hide BitsOf, Bit;
    ghost var before := bitstream[..];
    BitsOfUpdate(before, p, bit);
    if !bit {
      bitstream[p / 8] := ClearBit(bitstream[p / 8], 7 - p % 8);
    } else {
      ByteOr(bitstream[p / 8], 7 - p % 8);
      bitstream[p / 8] := OrBit(bitstream[p / 8], 7 - p % 8);
    }
    assert bitstream[..] == before[p / 8 := WithBit(before[p / 8], 7 - p % 8, bit)];
  }

  /** The variant for a bit that is still zero, which only ever sets bits. */
  method SetPixelBit0(bitstream: array<Byte>, p: nat, bit: bool)
    requires p < 8 * bitstream.Length && !BitsOf(bitstream[..])[p]
    modifies bitstream
    ensures BitsOf(bitstream[..]) == old(BitsOf(bitstream[..]))[p := bit]
  {
    hide BitsOf, Bit;
    ghost var before := bitstream[..];
    BitsOfUpdate(before, p, bit);
    if bit {
      ByteOr(bitstream[p / 8], 7 - p % 8);
      bitstream[p / 8] := OrBit(bitstream[p / 8], 7 - p % 8);
      assert bitstream[..] == before[p / 8 := WithBit(before[p / 8], 7 - p % 8, bit)];
    }
  }

  // ---- Padding ----

  /** The first olinebits of each of h rows of ilinebits. */
  function Unpadded(s: BitString, olinebits: nat, ilinebits: nat, h: nat): (r: BitString)
    requires olinebits <= ilinebits && RowAt(h, ilinebits) <= |s|
    ensures |r| == RowAt(h, olinebits)
  {
    if h == 0 then NextRow(0, olinebits); []
    else
      NextRow(h - 1, olinebits);
      NextRow(h - 1, ilinebits);
      Unpadded(s, olinebits, ilinebits, h - 1) + s[RowAt(h - 1, ilinebits)..RowAt(h - 1, ilinebits) + olinebits]
  }

  /** Bit k of row y stays bit k of row y. */
  lemma {:induction false} UnpaddedAt(s: BitString, olinebits: nat, ilinebits: nat, h: nat, y: nat, k: nat)
    requires olinebits <= ilinebits && RowAt(h, ilinebits) <= |s| && y < h && k < olinebits
    ensures RowAt(y, ilinebits) + k < |s| && RowAt(y, olinebits) + k < RowAt(h, olinebits)
    ensures Unpadded(s, olinebits, ilinebits, h)[RowAt(y, olinebits) + k] == s[RowAt(y, ilinebits) + k]
  {
    hide RowAt;
    NextRow(h - 1, ilinebits);
    NextRow(h - 1, olinebits);
    if y < h - 1 { UnpaddedAt(s, olinebits, ilinebits, h - 1, y, k); }
  }

  /** Zero bits after each of h rows of ilinebits. */
  function Padded(s: BitString, olinebits: nat, ilinebits: nat, h: nat): (r: BitString)
    requires ilinebits <= olinebits && RowAt(h, ilinebits) <= |s|
    ensures |r| == RowAt(h, olinebits)
  {
    if h == 0 then NextRow(0, olinebits); []
    else
      NextRow(h - 1, olinebits);
      NextRow(h - 1, ilinebits);
      Padded(s, olinebits, ilinebits, h - 1) + s[RowAt(h - 1, ilinebits)..RowAt(h - 1, ilinebits) + ilinebits]
      + Copies(false, olinebits - ilinebits)
  }

  lemma {:induction false} UnpaddedPrefix(s: BitString, t: BitString, olinebits: nat, ilinebits: nat, h: nat)
    requires olinebits <= ilinebits && RowAt(h, ilinebits) <= |s|
    ensures |s + t| >= RowAt(h, ilinebits) && Unpadded(s + t, olinebits, ilinebits, h) == Unpadded(s, olinebits, ilinebits, h)
  {
    hide RowAt;
    if h > 0 {
      NextRow(h - 1, ilinebits);
      UnpaddedPrefix(s, t, olinebits, ilinebits, h - 1);
      var p := RowAt(h - 1, ilinebits);
      assert (s + t)[p..p + olinebits] == s[p..p + olinebits];
    }
  }

  /** Removing the padding bits undoes adding them. */
  lemma {:induction false} UnpaddedPadded(s: BitString, olinebits: nat, ilinebits: nat, h: nat)
    requires ilinebits <= olinebits && RowAt(h, ilinebits) <= |s|
    ensures Unpadded(Padded(s, olinebits, ilinebits, h), ilinebits, olinebits, h) == s[..RowAt(h, ilinebits)]
  {
    hide RowAt, Padded, Unpadded;
    if h > 0 {
      NextRow(h - 1, ilinebits);
      NextRow(h - 1, olinebits);
      UnpaddedPadded(s, olinebits, ilinebits, h - 1);
      var front := Padded(s, olinebits, ilinebits, h - 1);
      var p := RowAt(h - 1, ilinebits);
      var row := s[p..p + ilinebits] + Copies(false, olinebits - ilinebits);
      PaddedStep(s, olinebits, ilinebits, h);
      UnpaddedStep(front + row, ilinebits, olinebits, h);
      UnpaddedPrefix(front, row, ilinebits, olinebits, h - 1);
      assert (front + row)[|front|..|front| + ilinebits] == row[..ilinebits] == s[p..p + ilinebits];
      assert s[..p] + s[p..p + ilinebits] == s[..p + ilinebits];
    } else {
      NextRow(0, ilinebits);
    }
  }

  lemma PaddedStep(s: BitString, olinebits: nat, ilinebits: nat, h: nat)
    requires h > 0 && ilinebits <= olinebits && RowAt(h, ilinebits) <= |s|
    ensures
      var p := RowAt(h - 1, ilinebits);
      && RowAt(h, ilinebits) == p + ilinebits
      && Padded(s, olinebits, ilinebits, h)
         == Padded(s, olinebits, ilinebits, h - 1) + (s[p..p + ilinebits] + Copies(false, olinebits - ilinebits))
  {
    hide RowAt;
    NextRow(h - 1, ilinebits);
  }

  lemma UnpaddedStep(s: BitString, olinebits: nat, ilinebits: nat, h: nat)
    requires h > 0 && olinebits <= ilinebits && RowAt(h, ilinebits) <= |s|
    ensures
      var p := RowAt(h - 1, ilinebits);
      && RowAt(h, ilinebits) == p + ilinebits
      && Unpadded(s, olinebits, ilinebits, h) == Unpadded(s, olinebits, ilinebits, h - 1) + s[p..p + olinebits]
  {
    hide RowAt;
    NextRow(h - 1, ilinebits);
  }

  /** The state of a loop moving bits: those before are placed, the input from here on is untouched. */
  lemma MoveBit(before: BitString, now: BitString, start: nat, done: BitString, bit: bool)
    requires Written(before, now, start, done) && start + |done| < |before|
    ensures Written(before, now[start + |done| := bit], start, done + [bit])
  {
    WrittenStep(before, now, start, done, bit);
  }

  /** Moves one row of bits down; nothing is overwritten before it is read. */
  method MoveRow(out: array<Byte>, obp: nat, inp: array<Byte>, ibp: nat, n: nat,
                 ghost before: BitString, ghost start: nat, ghost input: BitString, ghost front: BitString)
    requires obp == start + |front| && obp + n <= 8 * out.Length && ibp + n <= 8 * inp.Length
    requires Written(before, BitsOf(out[..]), start, front)
    requires out == inp ==> obp <= ibp && input == before
    requires out != inp ==> input == BitsOf(inp[..])
    requires |before| == 8 * out.Length && |input| == 8 * inp.Length
    modifies out
    ensures Written(before, BitsOf(out[..]), start, front + input[ibp..ibp + n])
  {
    hide BitsOf, Written;
    assert front + input[ibp..ibp] == front;
    for x := 0 to n
      invariant Written(before, BitsOf(out[..]), start, front + input[ibp..ibp + x])
    {
      ghost var now := BitsOf(out[..]);
      WrittenAt(before, now, start, front + input[ibp..ibp + x]);
      var bit := ReadPixelBit(inp, ibp + x);
      assert bit == input[ibp + x];
      MoveBit(before, now, start, front + input[ibp..ibp + x], bit);
      assert front + input[ibp..ibp + x] + [bit] == front + input[ibp..ibp + x + 1];
      SetPixelBit(out, obp + x, bit);
    }
  }

  /**
   * removePaddingBits. Output and input may be the same memory if the output does not start after the
   * input: every bit is read before it is overwritten.
   */
  method RemovePaddingBits(out: array<Byte>, oo: nat, inp: array<Byte>, io: nat, olinebits: nat, ilinebits: nat, h: nat)
    requires olinebits <= ilinebits
    requires 8 * io + RowAt(h, ilinebits) <= 8 * inp.Length && 8 * oo + RowAt(h, olinebits) <= 8 * out.Length
    requires out == inp ==> oo <= io
    modifies out
    ensures Written(old(BitsOf(out[..])), BitsOf(out[..]), 8 * oo,
                    Unpadded(old(BitsOf(inp[..])[8 * io..]), olinebits, ilinebits, h))
  {
    hide BitsOf, Written, RowAt, Unpadded;
    ghost var before, all := BitsOf(out[..]), BitsOf(inp[..]);
    ghost var input := all[8 * io..];
    var diff := ilinebits - olinebits;
    var ibp, obp := 8 * io, 8 * oo;
    NextRow(0, olinebits);
    NextRow(0, ilinebits);
    NoPadding(before, 8 * oo, input, olinebits, ilinebits);
    for y := 0 to h
      invariant ibp == 8 * io + RowAt(y, ilinebits) && obp == 8 * oo + RowAt(y, olinebits)
      invariant RowAt(y, ilinebits) <= |input| && RowAt(y, olinebits) <= RowAt(y, ilinebits)
      invariant Written(before, BitsOf(out[..]), 8 * oo, Unpadded(input, olinebits, ilinebits, y))
    {
      RowInside(y, ilinebits, h);
      RowInside(y, olinebits, h);
      NextRow(y, ilinebits);
      NextRow(y, olinebits);
      ghost var p := RowAt(y, ilinebits);
      ghost var front := Unpadded(input, olinebits, ilinebits, y);
      MoveRow(out, obp, inp, ibp, olinebits, before, 8 * oo, all, front);
      assert input == all[8 * io..8 * io + (|all| - 8 * io)];
      SliceOfSlice(all, 8 * io, |all| - 8 * io, p, olinebits);
      ibp := ibp + olinebits + diff;
      obp := obp + olinebits;
      UnpaddedRow(input, olinebits, ilinebits, y);
    }
  }

  lemma NoPadding(before: BitString, start: nat, input: BitString, olinebits: nat, ilinebits: nat)
    requires start <= |before| && olinebits <= ilinebits
    ensures RowAt(0, ilinebits) == 0 && Written(before, before, start, Unpadded(input, olinebits, ilinebits, 0))
  {
  }

  lemma UnpaddedRow(input: BitString, olinebits: nat, ilinebits: nat, y: nat)
    requires olinebits <= ilinebits && RowAt(y + 1, ilinebits) <= |input|
    ensures RowAt(y, ilinebits) + ilinebits == RowAt(y + 1, ilinebits)
    ensures Unpadded(input, olinebits, ilinebits, y + 1)
         == Unpadded(input, olinebits, ilinebits, y) + input[RowAt(y, ilinebits)..RowAt(y, ilinebits) + olinebits]
  {
    NextRow(y, ilinebits);
  }

  /** addPaddingBits, into other memory. */
  method AddPaddingBits(out: array<Byte>, inp: array<Byte>, io: nat, olinebits: nat, ilinebits: nat, h: nat)
    requires ilinebits <= olinebits && out != inp
    requires 8 * io + RowAt(h, ilinebits) <= 8 * inp.Length && RowAt(h, olinebits) <= 8 * out.Length
    modifies out
    ensures Written(old(BitsOf(out[..])), BitsOf(out[..]), 0, Padded(BitsOf(inp[..])[8 * io..], olinebits, ilinebits, h))
  {
    hide BitsOf, Written, RowAt, Padded;
    ghost var before, all := BitsOf(out[..]), BitsOf(inp[..]);
    ghost var input := all[8 * io..];
    var diff := olinebits - ilinebits;
    var ibp, obp := 8 * io, 0;
    NextRow(0, olinebits);
    NextRow(0, ilinebits);
    NothingPadded(before, input, olinebits, ilinebits);
    for y := 0 to h
      invariant ibp == 8 * io + RowAt(y, ilinebits) && obp == RowAt(y, olinebits) && RowAt(y, ilinebits) <= |input|
      invariant Written(before, BitsOf(out[..]), 0, Padded(input, olinebits, ilinebits, y))
    {
      RowInside(y, ilinebits, h);
      RowInside(y, olinebits, h);
      NextRow(y, ilinebits);
      NextRow(y, olinebits);
      ghost var p := RowAt(y, ilinebits);
      ghost var front := Padded(input, olinebits, ilinebits, y);
      MoveRow(out, obp, inp, ibp, ilinebits, before, 0, all, front);
      assert input == all[8 * io..8 * io + (|all| - 8 * io)];
      SliceOfSlice(all, 8 * io, |all| - 8 * io, p, ilinebits);
      ibp := ibp + ilinebits;
      obp := obp + ilinebits;
      ghost var row := front + input[p..p + ilinebits];
      assert row + Copies(false, 0) == row;
      for x := 0 to diff
        invariant obp == RowAt(y, olinebits) + ilinebits + x
        invariant Written(before, BitsOf(out[..]), 0, row + Copies(false, x))
      {
        ghost var now := BitsOf(out[..]);
        WrittenAt(before, now, 0, row + Copies(false, x));
        MoveBit(before, now, 0, row + Copies(false, x), false);
        assert row + Copies(false, x) + [false] == row + Copies(false, x + 1);
        SetPixelBit(out, obp, false);
        obp := obp + 1;
      }
      PaddedRow(input, olinebits, ilinebits, y);
    }
  }

  lemma NothingPadded(before: BitString, input: BitString, olinebits: nat, ilinebits: nat)
    requires ilinebits <= olinebits
    ensures RowAt(0, ilinebits) == 0 && Written(before, before, 0, Padded(input, olinebits, ilinebits, 0))
  {
  }

  lemma PaddedRow(input: BitString, olinebits: nat, ilinebits: nat, y: nat)
    requires ilinebits <= olinebits && RowAt(y + 1, ilinebits) <= |input|
    ensures RowAt(y, ilinebits) + ilinebits == RowAt(y + 1, ilinebits)
    ensures Padded(input, olinebits, ilinebits, y + 1)
         == Padded(input, olinebits, ilinebits, y) + input[RowAt(y, ilinebits)..RowAt(y, ilinebits) + ilinebits]
            + Copies(false, olinebits - ilinebits)
  {
    NextRow(y, ilinebits);
  }
}
