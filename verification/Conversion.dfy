/** Conversion of whole images between color types, and when the automatic choice loses nothing (lodepng.c:2349-2367, 3243-3476, 5567-5601). */
module Conversion {
  import opened Bits
  import opened Canonical
  import opened PixelBits
  import opened WordBits
  import opened Scanlines
  import opened ColorTrees
  import opened ColorKeys
  import opened ColorModes
  import opened Profiles
  import opened ColorChoice
  import opened Palettes
  import opened PixelWriting
  import opened Pixel16

  // ---- All pixels at once ----

  /** readBitsFromReversedStream. */
  method ReadBitsFromReversedStream(data: seq<Byte>, bitpointer: nat, nbits: nat) returns (result: nat, next: nat)
    requires bitpointer + nbits <= 8 * |data|
    ensures result == CodeValue(BitsOf(data)[bitpointer..bitpointer + nbits]) && next == bitpointer + nbits
  {
    hide CodeValue, BitsOf;
    result, next := 0, bitpointer;
    ghost var s := BitsOf(data);
    NoBitsRead(s, bitpointer);
    var i: nat := nbits;
    while i > 0
      invariant i <= nbits && next == bitpointer + (nbits - i) && |s| == 8 * |data| && s == BitsOf(data)
      invariant result == CodeValue(s[bitpointer..next]) * Pow2(i)
    {
      i := i - 1;
      BitFromByte(data, next);
      var bit := Shr(data[next / 8], 7 - next % 8) % 2;
      NextBitRead(s, bitpointer, next, i, bit);
      result := result + bit * Pow2(i);
      next := next + 1;
    }
    assert Pow2(0) == 1;
  }

  lemma NoBitsRead(s: BitString, p: nat)
    requires p <= |s|
    ensures CodeValue(s[p..p]) == 0
  {
  }

  lemma BitFromByte(data: seq<Byte>, p: nat)
    requires p < 8 * |data|
    ensures Shr(data[p / 8], 7 - p % 8) % 2 == B2N(BitsOf(data)[p])
  {
    BitOfShr(data[p / 8], 7 - p % 8);
  }

  lemma NextBitRead(s: BitString, p: nat, next: nat, i: nat, bit: nat)
    requires p <= next < |s| && bit == B2N(s[next])
    ensures CodeValue(s[p..next]) * Pow2(i + 1) + bit * Pow2(i) == CodeValue(s[p..next + 1]) * Pow2(i)
  {
    hide CodeValue;
    assert s[p..next + 1] == s[p..next] + [s[next]];
    CodeValuePush(s[p..next], s[next]);
    TwoTimes(CodeValue(s[p..next]), bit, Pow2(i));
  }

  lemma TwoTimes(v: nat, bit: nat, p: nat)
    ensures v * (2 * p) + bit * p == (2 * v + bit) * p
  {
  }

  /** The color of pixel i stands in the buffer, with or without alpha. */
  ghost predicate ColorStored(buffer: seq<Byte>, n: nat, i: nat, c: Rgba) {
    && 3 <= n <= 4 && i * n + n <= |buffer|
    && buffer[i * n] == c.r && buffer[i * n + 1] == c.g && buffer[i * n + 2] == c.b && (n == 4 ==> buffer[i * n + 3] == c.a)
  }

  /** The first k pixels are read. */
  ghost predicate Filled(buffer: seq<Byte>, n: nat, data: seq<Byte>, mode: ColorMode, k: nat)
    requires mode.Valid() && HasPixels(data, k, mode.Bpp())
  {
    forall i: nat {:trigger Filled1(buffer, n, data, mode, i)} :: i < k ==> Filled1(buffer, n, data, mode, i)
  }

  ghost predicate Filled1(buffer: seq<Byte>, n: nat, data: seq<Byte>, mode: ColorMode, i: nat)
    requires mode.Valid()
  {
    i * mode.Bpp() + mode.Bpp() <= 8 * |data| && ColorStored(buffer, n, i, PixelColor(data, i, mode))
  }

  lemma FilledNext(before: seq<Byte>, now: seq<Byte>, n: nat, data: seq<Byte>, mode: ColorMode, k: nat)
    requires mode.Valid() && HasPixels(data, k + 1, mode.Bpp()) && HasPixels(data, k, mode.Bpp()) && Filled(before, n, data, mode, k)
    requires Filled1(now, n, data, mode, k) && OnlyPixel(before, now, k, n)
    ensures Filled(now, n, data, mode, k + 1)
  {
    hide PixelColor, HasPixels;
    forall i: nat | i < k ensures Filled1(now, n, data, mode, i) {
      assert Filled1(before, n, data, mode, i);
      forall j | i * n <= j < i * n + n ensures now[j] == before[j] { Apart(k, i, n, j); }
    }
  }

  /** buffer[0] = r; buffer[1] = g; buffer[2] = b; if(has_alpha) buffer[3] = a; */
  method FillColor(buffer: array<Byte>, n: nat, i: nat, numpixels: nat, r: Byte, g: Byte, b: Byte, a: Byte,
                   ghost data: seq<Byte>, ghost mode: ColorMode)
    requires 3 <= n <= 4 && i < numpixels && buffer.Length == numpixels * n
    requires mode.Valid() && HasPixels(data, numpixels, mode.Bpp()) && HasPixels(data, i, mode.Bpp()) && Filled(buffer[..], n, data, mode, i)
    requires i * mode.Bpp() + mode.Bpp() <= 8 * |data| && PixelColor(data, i, mode) == Rgba(r, g, b, a)
    modifies buffer
    ensures HasPixels(data, i + 1, mode.Bpp()) && Filled(buffer[..], n, data, mode, i + 1)
  {
    hide PixelColor, HasPixels, Filled, OnlyPixel;
    MulMonotone(i + 1, numpixels, n);
    TimesPlusOne(i, n);
    InsideImage(data, i, numpixels, mode);
    ghost var before := buffer[..];
    var bytes: seq<Byte> := if n == 4 then [r, g, b, a] else [r, g, b];
    assert |bytes| == n;
    assert i * |bytes| + |bytes| == (i + 1) * n <= numpixels * n;
    StorePixel(buffer, i, bytes);
    ghost var s := buffer[..][i * n..i * n + n];
    assert s[0] == buffer[i * n] && s[1] == buffer[i * n + 1] && s[2] == buffer[i * n + 2];
    assert n == 4 ==> s[3] == buffer[i * n + 3];
    FilledNext(before, buffer[..], n, data, mode, i);
  }

  lemma NothingFilled(buffer: seq<Byte>, n: nat, data: seq<Byte>, mode: ColorMode)
    requires mode.Valid()
    ensures HasPixels(data, 0, mode.Bpp()) && Filled(buffer, n, data, mode, 0)
  {
  }

  method FillGrey(buffer: array<Byte>, n: nat, numpixels: nat, data: seq<Byte>, mode: ColorMode)
    requires mode.Valid() && mode.colortype == 0 && HasPixels(data, numpixels, mode.Bpp())
    requires 3 <= n <= 4 && buffer.Length == numpixels * n
    modifies buffer
    ensures Filled(buffer[..], n, data, mode, numpixels)
  {
    hide HasPixels, Filled, CodeValue, BitsOf;
    NothingFilled(buffer[..], n, data, mode);
    if mode.bitdepth == 8 {
      for i := 0 to numpixels
        invariant HasPixels(data, i, mode.Bpp()) && Filled(buffer[..], n, data, mode, i)
      {
        InsideImage(data, i, numpixels, mode);
        var grey := data[i];
        FillColor(buffer, n, i, numpixels, grey, grey, grey, if mode.key_defined && data[i] == mode.key_r then 0 else 255, data, mode);
      }
    } else if mode.bitdepth == 16 {
      for i := 0 to numpixels
        invariant HasPixels(data, i, mode.Bpp()) && Filled(buffer[..], n, data, mode, i)
      {
        InsideImage(data, i, numpixels, mode);
        var grey := data[i * 2];
        var key := mode.key_defined && 256 * (data[i * 2 + 0] as int) + data[i * 2 + 1] == mode.key_r;
        FillColor(buffer, n, i, numpixels, grey, grey, grey, if key then 0 else 255, data, mode);
      }
    } else {
      var highest := Pow2(mode.bitdepth) - 1;
      var j := 0;
      for i := 0 to numpixels
        invariant HasPixels(data, i, mode.Bpp()) && Filled(buffer[..], n, data, mode, i) && j == i * mode.bitdepth
      {
        InsideImage(data, i, numpixels, mode);
        var value;
        value, j := ReadBitsFromReversedStream(data, j, mode.bitdepth);
        SmallGrey(data, i, mode, value);
        var grey := value * 255 / highest;
        FillColor(buffer, n, i, numpixels, grey, grey, grey, if mode.key_defined && value == mode.key_r then 0 else 255, data, mode);
      }
    }
  }

  lemma SmallGrey(data: seq<Byte>, i: nat, mode: ColorMode, value: nat)
    requires mode.Valid() && mode.colortype == 0 && mode.bitdepth < 8 && i * mode.Bpp() + mode.Bpp() <= 8 * |data|
    requires value == CodeValue(BitsOf(data)[i * mode.bitdepth..i * mode.bitdepth + mode.bitdepth])
    ensures
      var highest := Pow2(mode.bitdepth) - 1;
      && highest >= 1 && value * 255 / highest <= 255
      && var grey: Byte := value * 255 / highest;
         PixelColor(data, i, mode) == Rgba(grey, grey, grey, if mode.key_defined && value == mode.key_r then 0 else 255)
  {
    hide CodeValue, BitsOf;
    TwoLevels(mode.bitdepth);
    QuotientFits(PixelValue(data, i, mode.bitdepth), Pow2(mode.bitdepth) - 1);
  }

  method FillRgb(buffer: array<Byte>, n: nat, numpixels: nat, data: seq<Byte>, mode: ColorMode)
    requires mode.Valid() && mode.colortype == 2 && HasPixels(data, numpixels, mode.Bpp())
    requires 3 <= n <= 4 && buffer.Length == numpixels * n
    modifies buffer
    ensures Filled(buffer[..], n, data, mode, numpixels)
  {
    hide HasPixels, Filled;
    NothingFilled(buffer[..], n, data, mode);
    if mode.bitdepth == 8 {
      for i := 0 to numpixels
        invariant HasPixels(data, i, mode.Bpp()) && Filled(buffer[..], n, data, mode, i)
      {
        InsideImage(data, i, numpixels, mode);
        var r, g, b := data[i * 3 + 0], data[i * 3 + 1], data[i * 3 + 2];
        var key := mode.key_defined && r == mode.key_r && g == mode.key_g && b == mode.key_b;
        FillColor(buffer, n, i, numpixels, r, g, b, if key then 0 else 255, data, mode);
      }
    } else {
      for i := 0 to numpixels
        invariant HasPixels(data, i, mode.Bpp()) && Filled(buffer[..], n, data, mode, i)
      {
        InsideImage(data, i, numpixels, mode);
        var r, g, b := data[i * 6 + 0], data[i * 6 + 2], data[i * 6 + 4];
        var key := mode.key_defined
          && 256 * (data[i * 6 + 0] as int) + data[i * 6 + 1] == mode.key_r
          && 256 * (data[i * 6 + 2] as int) + data[i * 6 + 3] == mode.key_g
          && 256 * (data[i * 6 + 4] as int) + data[i * 6 + 5] == mode.key_b;
        FillColor(buffer, n, i, numpixels, r, g, b, if key then 0 else 255, data, mode);
      }
    }
  }

  lemma PaletteIndex(data: seq<Byte>, i: nat, mode: ColorMode, index: nat)
    requires mode.Valid() && mode.colortype == 3 && i * mode.Bpp() + mode.Bpp() <= 8 * |data|
    requires index == if mode.bitdepth == 8 then data[i] else CodeValue(BitsOf(data)[i * mode.bitdepth..i * mode.bitdepth + mode.bitdepth])
    ensures PixelColor(data, i, mode) == if index >= |mode.palette| then Rgba(0, 0, 0, 255) else mode.palette[index]
  {
    hide CodeValue, BitsOf;
  }

  method FillPalette(buffer: array<Byte>, n: nat, numpixels: nat, data: seq<Byte>, mode: ColorMode)
    requires mode.Valid() && mode.colortype == 3 && HasPixels(data, numpixels, mode.Bpp())
    requires 3 <= n <= 4 && buffer.Length == numpixels * n
    modifies buffer
    ensures Filled(buffer[..], n, data, mode, numpixels)
  {
    hide HasPixels, Filled, PixelColor, CodeValue, BitsOf;
    NothingFilled(buffer[..], n, data, mode);
    var j := 0;
    for i := 0 to numpixels
      invariant HasPixels(data, i, mode.Bpp()) && Filled(buffer[..], n, data, mode, i) && (mode.bitdepth != 8 ==> j == i * mode.bitdepth)
    {
      InsideImage(data, i, numpixels, mode);
      var index: nat;
      if mode.bitdepth == 8 {
        index := data[i];
      } else {
        index, j := ReadBitsFromReversedStream(data, j, mode.bitdepth);
      }
      PaletteIndex(data, i, mode, index);
      if index >= |mode.palette| {
        FillColor(buffer, n, i, numpixels, 0, 0, 0, 255, data, mode);
      } else {
        var c := mode.palette[index];
        FillColor(buffer, n, i, numpixels, c.r, c.g, c.b, c.a, data, mode);
      }
    }
  }

  method FillGreyAlpha(buffer: array<Byte>, n: nat, numpixels: nat, data: seq<Byte>, mode: ColorMode)
    requires mode.Valid() && mode.colortype == 4 && HasPixels(data, numpixels, mode.Bpp())
    requires 3 <= n <= 4 && buffer.Length == numpixels * n
    modifies buffer
    ensures Filled(buffer[..], n, data, mode, numpixels)
  {
    hide HasPixels, Filled;
    NothingFilled(buffer[..], n, data, mode);
    if mode.bitdepth == 8 {
      for i := 0 to numpixels
        invariant HasPixels(data, i, mode.Bpp()) && Filled(buffer[..], n, data, mode, i)
      {
        InsideImage(data, i, numpixels, mode);
        FillColor(buffer, n, i, numpixels, data[i * 2 + 0], data[i * 2 + 0], data[i * 2 + 0], data[i * 2 + 1], data, mode);
      }
    } else {
      for i := 0 to numpixels
        invariant HasPixels(data, i, mode.Bpp()) && Filled(buffer[..], n, data, mode, i)
      {
        InsideImage(data, i, numpixels, mode);
        FillColor(buffer, n, i, numpixels, data[i * 4 + 0], data[i * 4 + 0], data[i * 4 + 0], data[i * 4 + 2], data, mode);
      }
    }
  }

  method FillRgba(buffer: array<Byte>, n: nat, numpixels: nat, data: seq<Byte>, mode: ColorMode)
    requires mode.Valid() && mode.colortype == 6 && HasPixels(data, numpixels, mode.Bpp())
    requires 3 <= n <= 4 && buffer.Length == numpixels * n
    modifies buffer
    ensures Filled(buffer[..], n, data, mode, numpixels)
  {
    hide HasPixels, Filled;
    NothingFilled(buffer[..], n, data, mode);
    if mode.bitdepth == 8 {
      for i := 0 to numpixels
        invariant HasPixels(data, i, mode.Bpp()) && Filled(buffer[..], n, data, mode, i)
      {
        InsideImage(data, i, numpixels, mode);
        FillColor(buffer, n, i, numpixels, data[i * 4 + 0], data[i * 4 + 1], data[i * 4 + 2], data[i * 4 + 3], data, mode);
      }
    } else {
      for i := 0 to numpixels
        invariant HasPixels(data, i, mode.Bpp()) && Filled(buffer[..], n, data, mode, i)
      {
        InsideImage(data, i, numpixels, mode);
        FillColor(buffer, n, i, numpixels, data[i * 8 + 0], data[i * 8 + 2], data[i * 8 + 4], data[i * 8 + 6], data, mode);
      }
    }
  }

  /** getPixelColorsRGBA8: the loops for each color type give the same colors as reading pixel by pixel. */
  method GetPixelColors(buffer: array<Byte>, numpixels: nat, has_alpha: bool, data: seq<Byte>, mode: ColorMode)
    requires mode.Valid() && HasPixels(data, numpixels, mode.Bpp()) && buffer.Length == numpixels * if has_alpha then 4 else 3
    modifies buffer
    ensures Filled(buffer[..], if has_alpha then 4 else 3, data, mode, numpixels)
  {
    var num_channels := if has_alpha then 4 else 3;
    if mode.colortype == 0 {
      FillGrey(buffer, num_channels, numpixels, data, mode);
    } else if mode.colortype == 2 {
      FillRgb(buffer, num_channels, numpixels, data, mode);
    } else if mode.colortype == 3 {
      FillPalette(buffer, num_channels, numpixels, data, mode);
    } else if mode.colortype == 4 {
      FillGreyAlpha(buffer, num_channels, numpixels, data, mode);
    } else {
      FillRgba(buffer, num_channels, numpixels, data, mode);
    }
  }

  // ---- lodepng_convert ----

  /** Both modes have 16 bits per channel: nothing is rounded. */
  predicate InFull(mode_out: ColorMode, mode_in: ColorMode) { mode_out.bitdepth == 16 && mode_in.bitdepth == 16 }

  /** What conversion makes of pixel i. */
  ghost predicate PixelConverted(out: seq<Byte>, mode_out: ColorMode, data: seq<Byte>, mode_in: ColorMode, i: nat)
    requires mode_in.Valid() && mode_out.Valid()
  {
    && i * mode_out.Bpp() + mode_out.Bpp() <= 8 * |out| && i * mode_in.Bpp() + mode_in.Bpp() <= 8 * |data|
    && (ModesEqual(mode_out, mode_in) ==> PixelColor(out, i, mode_out) == PixelColor(data, i, mode_in))
    && (ModesEqual(mode_out, mode_in) && InFull(mode_out, mode_in) ==> PixelColor16(out, i, mode_out) == PixelColor16(data, i, mode_in))
    && (!ModesEqual(mode_out, mode_in) && InFull(mode_out, mode_in) ==>
          PixelColor16(out, i, mode_out) == Kept16(mode_out, PixelColor16(data, i, mode_in)))
    && (!ModesEqual(mode_out, mode_in) && !InFull(mode_out, mode_in) ==>
          PixelColor(out, i, mode_out) == AsWritten(mode_out, PixelColor(data, i, mode_in)) && Widened(out, i, mode_out))
  }

  ghost predicate Converted(out: seq<Byte>, mode_out: ColorMode, data: seq<Byte>, mode_in: ColorMode, numpixels: nat)
    requires mode_in.Valid() && mode_out.Valid()
  {
    forall i: nat :: i < numpixels ==> PixelConverted(out, mode_out, data, mode_in, i)
  }

  lemma OutputHasRoom(numpixels: nat, bpp: nat, size: nat, i: nat)
    requires size == (numpixels * bpp + 7) / 8 && i < numpixels
    ensures i * bpp + bpp <= 8 * size
  {
    PixelInside(i, numpixels, bpp);
  }

  /** An image is a copy of the first bytes of another. */
  lemma SameBytesSamePixel(data: seq<Byte>, out: seq<Byte>, i: nat, a: ColorMode, b: ColorMode)
    requires a.Valid() && b.Valid() && ModesEqual(a, b) && |out| <= |data| && out == data[..|out|] && i * a.Bpp() + a.Bpp() <= 8 * |out|
    ensures PixelColor(out, i, a) == PixelColor(data, i, b)
    ensures InFull(a, b) ==> PixelColor16(out, i, a) == PixelColor16(data, i, b)
  {
    hide PixelColor, PixelColor16;
    if a.Bpp() <= 8 {
      SmallSame(data, out, i, a, b);
    } else {
      var bytes := a.Bpp() / 8;
      SlicePixel(out, i, a, bytes);
      SlicePixel(data, i, b, bytes);
      assert out[i * bytes..i * bytes + bytes] == data[i * bytes..i * bytes + bytes];
      SameMode(out[i * bytes..i * bytes + bytes], a, b);
      if InFull(a, b) {
        Slice16(out, i, a, bytes);
        Slice16(data, i, b, bytes);
      }
    }
  }

  lemma SmallSame(data: seq<Byte>, out: seq<Byte>, i: nat, a: ColorMode, b: ColorMode)
    requires a.Valid() && b.Valid() && ModesEqual(a, b) && |out| <= |data| && out == data[..|out|] && a.Bpp() <= 8
    requires i * a.Bpp() + a.Bpp() <= 8 * |out|
    ensures PixelColor(out, i, a) == PixelColor(data, i, b)
  {
    hide BitsOf, CodeValue, GreyLevel;
    SmallDepths(a);
    SmallDepths(b);
    BitsOfPrefix(data, out, i * a.bitdepth, a.bitdepth);
  }

  lemma BitsOfPrefix(data: seq<Byte>, out: seq<Byte>, at: nat, n: nat)
    requires |out| <= |data| && out == data[..|out|] && at + n <= 8 * |out|
    ensures BitsOf(out)[at..at + n] == BitsOf(data)[at..at + n]
  {
    hide Bit;
    var s, t := BitsOf(out)[at..at + n], BitsOf(data)[at..at + n];
    forall k | 0 <= k < n ensures s[k] == t[k] {
      assert s[k] == BitsOf(out)[at + k] && t[k] == BitsOf(data)[at + k];
      assert out[(at + k) / 8] == data[(at + k) / 8];
    }
  }

  lemma SameMode(data: seq<Byte>, a: ColorMode, b: ColorMode)
    requires a.Valid() && b.Valid() && ModesEqual(a, b) && a.Bpp() > 8 && a.Bpp() <= 8 * |data|
    ensures PixelColor(data, 0, a) == PixelColor(data, 0, b)
    ensures InFull(a, b) ==> PixelColor16(data, 0, a) == PixelColor16(data, 0, b)
  {
    hide PixelValue, SmallColor;
  }

  /** Equal modes: the bytes are copied. */
  method CopyImage(out: array<Byte>, data: seq<Byte>, mode_out: ColorMode, mode_in: ColorMode, numpixels: nat)
    requires mode_in.Valid() && mode_out.Valid() && HasPixels(data, numpixels, mode_in.Bpp())
    requires ModesEqual(mode_out, mode_in) && out.Length == (numpixels * mode_out.Bpp() + 7) / 8
    modifies out
    ensures Converted(out[..], mode_out, data, mode_in, numpixels)
  {
    hide PixelColor, PixelColor16, ModesEqual;
    SameBpp(mode_out, mode_in);
    for i := 0 to out.Length
      invariant out[..i] == data[..i]
    {
      out[i] := data[i];
    }
    assert out[..] == data[..out.Length];
    forall i: nat | i < numpixels ensures PixelConverted(out[..], mode_out, data, mode_in, i) {
      OutputHasRoom(numpixels, mode_out.Bpp(), out.Length, i);
      PixelInside(i, numpixels, mode_in.Bpp());
      SameBytesSamePixel(data, out[..], i, mode_out, mode_in);
    }
  }

  lemma SameBpp(a: ColorMode, b: ColorMode)
    requires ModesEqual(a, b)
    ensures a.Bpp() == b.Bpp()
  {
  }

  /** Between modes of 16 bits. */
  method ConvertInFull(out: array<Byte>, data: seq<Byte>, mode_out: ColorMode, mode_in: ColorMode, numpixels: nat)
    requires mode_in.Valid() && mode_out.Valid() && HasPixels(data, numpixels, mode_in.Bpp())
    requires !ModesEqual(mode_out, mode_in) && InFull(mode_out, mode_in) && out.Length == (numpixels * mode_out.Bpp() + 7) / 8
    modifies out
    ensures Converted(out[..], mode_out, data, mode_in, numpixels)
  {
    hide PixelColor, PixelColor16, ModesEqual, Kept16, OnlyPixel;
    for i := 0 to numpixels
      invariant Converted(out[..], mode_out, data, mode_in, i)
    {
      OutputHasRoom(numpixels, mode_out.Bpp(), out.Length, i);
      PixelInside(i, numpixels, mode_in.Bpp());
      ghost var before := out[..];
      Rgba16ToPixel(out, i, mode_out, PixelColor16(data, i, mode_in));
      forall k: nat | k < i ensures PixelConverted(out[..], mode_out, data, mode_in, k) {
        assert PixelConverted(before, mode_out, data, mode_in, k);
        OtherPixels16(before, out[..], i, mode_out.Bpp() / 8, mode_out, k);
      }
    }
  }

  /** To eight bits with three or four channels, by the loops for all pixels at once. */
  method ConvertByLoops(out: array<Byte>, data: seq<Byte>, mode_out: ColorMode, mode_in: ColorMode, numpixels: nat)
    requires mode_in.Valid() && mode_out.Valid() && HasPixels(data, numpixels, mode_in.Bpp()) && !ModesEqual(mode_out, mode_in)
    requires mode_out.bitdepth == 8 && (mode_out.colortype == 2 || mode_out.colortype == 6)
    requires out.Length == (numpixels * mode_out.Bpp() + 7) / 8
    modifies out
    ensures Converted(out[..], mode_out, data, mode_in, numpixels)
  {
    hide PixelColor, ModesEqual, Filled, Kept8;
    ghost var n := if mode_out.colortype == 6 then 4 else 3;
    GetPixelColors(out, numpixels, mode_out.colortype == 6, data, mode_in);
    forall i: nat | i < numpixels ensures PixelConverted(out[..], mode_out, data, mode_in, i) {
      OutputHasRoom(numpixels, mode_out.Bpp(), out.Length, i);
      LoopConverted(out[..], n, data, mode_out, mode_in, numpixels, i);
    }
  }

  lemma LoopConverted(out: seq<Byte>, n: nat, data: seq<Byte>, mode_out: ColorMode, mode_in: ColorMode, k: nat, i: nat)
    requires mode_in.Valid() && mode_out.Valid() && HasPixels(data, k, mode_in.Bpp()) && Filled(out, n, data, mode_in, k) && i < k
    requires mode_out.bitdepth == 8 && ((mode_out.colortype == 6 && n == 4) || (mode_out.colortype == 2 && n == 3))
    requires !ModesEqual(mode_out, mode_in) && i * mode_out.Bpp() + mode_out.Bpp() <= 8 * |out|
    ensures PixelConverted(out, mode_out, data, mode_in, i)
  {
    hide PixelColor, ModesEqual, Filled, AsWritten;
    FilledAt(out, n, data, mode_in, k, i);
    StoredColor(out, n, i, mode_out, PixelColor(data, i, mode_in));
  }

  lemma FilledAt(buffer: seq<Byte>, n: nat, data: seq<Byte>, mode: ColorMode, k: nat, i: nat)
    requires mode.Valid() && HasPixels(data, k, mode.Bpp()) && Filled(buffer, n, data, mode, k) && i < k
    ensures i * mode.Bpp() + mode.Bpp() <= 8 * |data| && ColorStored(buffer, n, i, PixelColor(data, i, mode))
  {
    hide PixelColor;
    assert Filled1(buffer, n, data, mode, i);
  }

  lemma StoredColor(out: seq<Byte>, n: nat, i: nat, mode: ColorMode, c: Rgba)
    requires mode.Valid() && mode.bitdepth == 8 && i * mode.Bpp() + mode.Bpp() <= 8 * |out| && ColorStored(out, n, i, c)
    requires (mode.colortype == 6 && n == 4) || (mode.colortype == 2 && n == 3)
    ensures PixelColor(out, i, mode) == AsWritten(mode, c)
  {
    hide PixelValue, SmallColor;
    WholeByteCut(c.r);
    WholeByteCut(c.g);
    WholeByteCut(c.b);
  }

  /** A palette to convert to has all colors of the image, among those that its values can stand for. */
  ghost predicate AllUsable(mode_out: ColorMode, data: seq<Byte>, n: nat, mode_in: ColorMode)
    requires mode_in.Valid()
  {
    mode_out.colortype == 3 ==> Scanned(data, n, mode_in, Usable(mode_out))
  }

  lemma NoneUsed(mode_out: ColorMode, data: seq<Byte>, mode_in: ColorMode)
    requires mode_in.Valid()
    ensures AllUsable(mode_out, data, 0, mode_in)
  {
  }

  lemma UsableNext(mode_out: ColorMode, data: seq<Byte>, i: nat, mode_in: ColorMode)
    requires mode_in.Valid() && i * mode_in.Bpp() + mode_in.Bpp() <= 8 * |data|
    ensures
      AllUsable(mode_out, data, i + 1, mode_in) <==>
        AllUsable(mode_out, data, i, mode_in) && (mode_out.colortype == 3 ==> PixelColor(data, i, mode_in) in Usable(mode_out))
  {
    hide PixelColor, Usable;
    var all := Usable(mode_out);
    assert PixelIn(data, i, mode_in, all) <==> PixelColor(data, i, mode_in) in all;
  }

  lemma SuitsIsUsable(mode_out: ColorMode, data: seq<Byte>, n: nat, mode_in: ColorMode)
    requires mode_in.Valid() && Suits(mode_out, data, n, mode_in)
    ensures AllUsable(mode_out, data, n, mode_in)
  {
    hide Scanned, DistinctColors;
    assert Usable(mode_out) == mode_out.palette;
  }

  /** All other conversions, pixel by pixel. Error 82 of a pixel is not looked at: the pixel is left out. */
  method ConvertByPixels(out: array<Byte>, data: seq<Byte>, mode_out: ColorMode, mode_in: ColorMode, numpixels: nat)
    requires mode_in.Valid() && mode_out.Valid() && HasPixels(data, numpixels, mode_in.Bpp())
    requires !ModesEqual(mode_out, mode_in) && !InFull(mode_out, mode_in) && out.Length == (numpixels * mode_out.Bpp() + 7) / 8
    modifies out
    ensures AllUsable(mode_out, data, numpixels, mode_in) ==> Converted(out[..], mode_out, data, mode_in, numpixels)
  {
    hide PixelColor, ModesEqual, AsWritten, Pixels, ColorTree.Valid, Indexes, AllUsable;
    var tree := new ColorTree();
    if mode_out.colortype == 3 {
      var palsize := Pow2(mode_out.bitdepth);
      if |mode_out.palette| < palsize { palsize := |mode_out.palette|; }
      tree := PaletteTree(mode_out.palette, palsize);
    }
    ghost var values: seq<nat>, s: seq<Rgba>, complete := [], [], true;
    NoPixels(out[..], mode_out);
    NoneUsed(mode_out, data, mode_in);
    for i := 0 to numpixels
      invariant complete <==> AllUsable(mode_out, data, i, mode_in)
      invariant complete ==> |s| == i && Pixels(out[..], mode_out, values, s)
      invariant complete ==> forall k: nat :: k < i ==> WrittenFrom(s[k], mode_out, data, mode_in, k)
      invariant mode_out.colortype == 3 ==> tree.Valid() && Indexes(tree.colors, Usable(mode_out))
    {
      OutputHasRoom(numpixels, mode_out.Bpp(), out.Length, i);
      PixelInside(i, numpixels, mode_in.Bpp());
      UsableNext(mode_out, data, i, mode_in);
      var error;
      error, values := Rgba8ToPixel(out, i, mode_out, tree, PixelColor(data, i, mode_in), complete, values, s);
      s := s + [AsWritten(mode_out, PixelColor(data, i, mode_in))];
      complete := complete && error == 0;
    }
    if complete { PixelsAreConverted(out[..], data, mode_out, mode_in, numpixels, values, s); }
  }

  lemma PixelsAreConverted(out: seq<Byte>, data: seq<Byte>, mode_out: ColorMode, mode_in: ColorMode, n: nat, values: seq<nat>, s: seq<Rgba>)
    requires mode_in.Valid() && mode_out.Valid() && |s| == n && Pixels(out, mode_out, values, s)
    requires !ModesEqual(mode_out, mode_in) && !InFull(mode_out, mode_in)
    requires forall k: nat :: k < n ==> WrittenFrom(s[k], mode_out, data, mode_in, k)
    ensures Converted(out, mode_out, data, mode_in, n)
  {
    hide PixelColor, ModesEqual, AsWritten, Pixels;
    forall i: nat | i < n ensures PixelConverted(out, mode_out, data, mode_in, i) {
      PixelsRead(out, mode_out, values, s, i);
      assert WrittenFrom(s[i], mode_out, data, mode_in, i);
    }
  }

  ghost predicate WrittenFrom(c: Rgba, mode_out: ColorMode, data: seq<Byte>, mode_in: ColorMode, i: nat)
    requires mode_in.Valid() && mode_out.Valid()
  {
    i * mode_in.Bpp() + mode_in.Bpp() <= 8 * |data| && c == AsWritten(mode_out, PixelColor(data, i, mode_in))
  }

  lemma NoPixels(out: seq<Byte>, mode: ColorMode)
    requires mode.Valid()
    ensures Pixels(out, mode, [], [])
  {
    if mode.Bpp() <= 8 {
      SmallDepths(mode);
      NothingStored(out, mode.bitdepth);
    }
  }

  /** Values behind the end of a palette are read as black; no pixel is, or there are none. */
  ghost predicate NoAccidentalBlack(mode_out: ColorMode, data: seq<Byte>, n: nat, mode_in: ColorMode)
    requires mode_in.Valid()
  {
    |mode_out.palette| >= Pow2(mode_out.bitdepth) || forall i: nat :: i < n ==> !PixelIn(data, i, mode_in, [Rgba(0, 0, 0, 255)])
  }

  lemma ShownIsUsable(out: seq<Byte>, i: nat, mode: ColorMode)
    requires mode.Valid() && mode.colortype == 3 && i * mode.Bpp() + mode.Bpp() <= 8 * |out|
    ensures
      PixelColor(out, i, mode) in Usable(mode) || (|mode.palette| < Pow2(mode.bitdepth) && PixelColor(out, i, mode) == Rgba(0, 0, 0, 255))
  {
    hide PixelColor, Pow2;
    PixelOfMode(out, i, mode);
    var v: nat :| v < Pow2(mode.bitdepth) && PixelColor(out, i, mode) == SmallColor(mode, v);
    if v < |mode.palette| { assert Usable(mode)[v] == mode.palette[v]; }
  }

  /** What was in the memory decides nothing then: the colors are kept exactly if the palette has them all. */
  lemma UsableExactly(out: seq<Byte>, mode_out: ColorMode, data: seq<Byte>, mode_in: ColorMode, n: nat)
    requires mode_in.Valid() && mode_out.Valid() && mode_out.colortype == 3 && !ModesEqual(mode_out, mode_in)
    requires HasPixels(data, n, mode_in.Bpp()) && |out| == (n * mode_out.Bpp() + 7) / 8 && NoAccidentalBlack(mode_out, data, n, mode_in)
    requires AllUsable(mode_out, data, n, mode_in) ==> Converted(out, mode_out, data, mode_in, n)
    ensures SameColors(out, mode_out, data, mode_in, n) <==> AllUsable(mode_out, data, n, mode_in)
  {
    hide PixelColor, PixelColor16, ModesEqual, HasPixels, Usable, Pow2;
    if AllUsable(mode_out, data, n, mode_in) {
      forall i: nat | i < n ensures SameColor(out, mode_out, data, mode_in, i) { assert PixelConverted(out, mode_out, data, mode_in, i); }
    }
    if SameColors(out, mode_out, data, mode_in, n) {
      forall i: nat | i < n ensures PixelIn(data, i, mode_in, Usable(mode_out)) {
        assert SameColor(out, mode_out, data, mode_in, i);
        ShownIsUsable(out, i, mode_out);
        assert |mode_out.palette| < Pow2(mode_out.bitdepth) ==> !PixelIn(data, i, mode_in, [Rgba(0, 0, 0, 255)]);
      }
    }
  }

  /** lodepng_convert. There is no error, also where a palette lacks a color. */
  method Convert(out: array<Byte>, data: seq<Byte>, mode_out: ColorMode, mode_in: ColorMode, numpixels: nat)
    requires mode_in.Valid() && mode_out.Valid() && HasPixels(data, numpixels, mode_in.Bpp())
    requires out.Length == (numpixels * mode_out.Bpp() + 7) / 8
    modifies out
    ensures ModesEqual(mode_out, mode_in) || AllUsable(mode_out, data, numpixels, mode_in) ==>
      Converted(out[..], mode_out, data, mode_in, numpixels)
    ensures mode_out.colortype == 3 && !ModesEqual(mode_out, mode_in) && NoAccidentalBlack(mode_out, data, numpixels, mode_in) ==>
      (SameColors(out[..], mode_out, data, mode_in, numpixels) <==> AllUsable(mode_out, data, numpixels, mode_in))
  {
    hide HasPixels, AllUsable, Converted, NoAccidentalBlack, ModesEqual, SameColors;
    if ModesEqual(mode_out, mode_in) {
      CopyImage(out, data, mode_out, mode_in, numpixels);
    } else if mode_in.bitdepth == 16 && mode_out.bitdepth == 16 {
      ConvertInFull(out, data, mode_out, mode_in, numpixels);
    } else if mode_out.bitdepth == 8 && (mode_out.colortype == 6 || mode_out.colortype == 2) {
      ConvertByLoops(out, data, mode_out, mode_in, numpixels);
    } else {
      ConvertByPixels(out, data, mode_out, mode_in, numpixels);
    }
    if mode_out.colortype == 3 && !ModesEqual(mode_out, mode_in) && NoAccidentalBlack(mode_out, data, numpixels, mode_in) {
      UsableExactly(out[..], mode_out, data, mode_in, numpixels);
    }
  }

  // ---- The automatic choice and the conversion to it ----

  /** A pixel of the converted image has its color exactly if the mode can show it. */
  lemma SameIfShown(out: seq<Byte>, mode_out: ColorMode, data: seq<Byte>, mode_in: ColorMode, i: nat, c: Rgba)
    requires mode_in.Valid() && mode_out.Valid() && mode_out.bitdepth <= 8 && PixelConverted(out, mode_out, data, mode_in, i)
    requires i * mode_in.Bpp() + mode_in.Bpp() <= 8 * |data| && c == PixelColor(data, i, mode_in)
    requires mode_out.colortype == 3 ==> CanShow(mode_out, c)
    ensures SameColor(out, mode_out, data, mode_in, i) <==> CanShow(mode_out, c)
  {
    hide PixelColor, CanShow, ModesEqual, Kept8;
    if ModesEqual(mode_out, mode_in) {
      OnlyShown(out, i, mode_out);
    } else if mode_out.colortype != 3 {
      KeptExactly(mode_out, c);
    }
  }

  lemma SameIfAllShown(out: seq<Byte>, mode_out: ColorMode, data: seq<Byte>, mode_in: ColorMode, n: nat)
    requires mode_in.Valid() && mode_out.Valid() && mode_out.bitdepth <= 8 && HasPixels(data, n, mode_in.Bpp())
    requires Converted(out, mode_out, data, mode_in, n)
    requires mode_out.colortype == 3 ==> ShowsAll(mode_out, Colors(data, n, mode_in))
    ensures SameColors(out, mode_out, data, mode_in, n) <==> ShowsAll(mode_out, Colors(data, n, mode_in))
  {
    hide PixelColor, CanShow, PixelConverted, SameColor, Colors;
    var s := Colors(data, n, mode_in);
    forall i: nat | i < n ensures SameColor(out, mode_out, data, mode_in, i) <==> CanShow(mode_out, s[i]) {
      ColorAt(data, n, mode_in, i);
      assert PixelConverted(out, mode_out, data, mode_in, i);
      SameIfShown(out, mode_out, data, mode_in, i, s[i]);
    }
  }

  ghost predicate SameColors16(out: seq<Byte>, mode_out: ColorMode, data: seq<Byte>, mode_in: ColorMode, n: nat)
    requires Sixteen(mode_in) && Sixteen(mode_out)
  {
    forall i: nat :: i < n ==> SameColor16(out, mode_out, data, mode_in, i)
  }

  ghost predicate SameColor16(out: seq<Byte>, mode_out: ColorMode, data: seq<Byte>, mode_in: ColorMode, i: nat)
    requires Sixteen(mode_in) && Sixteen(mode_out)
  {
    && i * mode_out.Bpp() + mode_out.Bpp() <= 8 * |out| && i * mode_in.Bpp() + mode_in.Bpp() <= 8 * |data|
    && PixelColor16(out, i, mode_out) == PixelColor16(data, i, mode_in)
  }

  /** What a mode reads it also keeps. */
  lemma KeepsOwn(data: seq<Byte>, i: nat, a: ColorMode, b: ColorMode)
    requires Sixteen(a) && Sixteen(b) && ModesEqual(a, b) && i * b.Bpp() + b.Bpp() <= 8 * |data|
    ensures Kept16(a, PixelColor16(data, i, b)) == PixelColor16(data, i, b)
  {
    hide WordAt;
  }

  lemma SameIfAllKept(out: seq<Byte>, mode_out: ColorMode, data: seq<Byte>, mode_in: ColorMode, n: nat)
    requires Sixteen(mode_in) && Sixteen(mode_out) && HasPixels(data, n, mode_in.Bpp()) && Converted(out, mode_out, data, mode_in, n)
    ensures SameColors16(out, mode_out, data, mode_in, n) <==> KeepsAll16(mode_out, Colors16(data, n, mode_in))
  {
    hide PixelColor, PixelColor16, Kept16, ModesEqual;
    var s := Colors16(data, n, mode_in);
    forall i: nat | i < n ensures SameColor16(out, mode_out, data, mode_in, i) <==> Kept16(mode_out, s[i]) == s[i] {
      Color16At(data, n, mode_in, i);
      assert PixelConverted(out, mode_out, data, mode_in, i);
      if ModesEqual(mode_out, mode_in) { KeepsOwn(data, i, mode_out, mode_in); }
    }
  }

  /**
   * lodepng_auto_choose_color and then lodepng_convert: every pixel of the converted image has its color exactly if the choice
   * is a palette or the image is one for which the other modes lose nothing; images that are truly 16-bit are compared in full.
   */
  method AutoConvert(data: seq<Byte>, numpixels: nat, mode_in: ColorMode) returns (palette_ok: bool, mode_out: ColorMode, out: array<Byte>)
    requires mode_in.Valid() && HasPixels(data, numpixels, mode_in.Bpp())
    ensures mode_out.Valid() && fresh(out) && out.Length == (numpixels * mode_out.Bpp() + 7) / 8
    ensures mode_out.bitdepth == 16 <==> mode_in.bitdepth == 16 && TrulySixteenBits(data, numpixels * Channels(mode_in.colortype))
    ensures palette_ok ==> mode_out.colortype == 3
    ensures palette_ok <==> mode_out.bitdepth <= 8 && PaletteChosen(Colors(data, numpixels, mode_in), mode_in.Bpp())
    ensures mode_out.bitdepth <= 8 ==>
      (SameColors(out[..], mode_out, data, mode_in, numpixels) <==> palette_ok || Kept(Colors(data, numpixels, mode_in), mode_in.Bpp()))
    ensures mode_out.bitdepth == 16 ==>
      (SameColors16(out[..], mode_out, data, mode_in, numpixels) <==> KeptInFull(Colors16(data, numpixels, mode_in)))
  {
    hide HasPixels, Suits, Converted, SameColors, SameColors16, ShowsAll, Kept, PaletteChosen, ColorMode.Valid, ModesEqual, Chosen, Chosen16,
         TrulySixteenBits, KeepsAll16, KeptInFull, ColorMode.Bpp, AllUsable;
    palette_ok, mode_out := AutoChooseColor(data, numpixels, mode_in);
    out := new Byte[(numpixels * mode_out.Bpp() + 7) / 8];
    if mode_out == mode_in { EqualToItself(mode_out); }
    if palette_ok && mode_out != mode_in { SuitsIsUsable(mode_out, data, numpixels, mode_in); }
    ChosenType(data, numpixels, mode_in, palette_ok, mode_out);
    Convert(out, data, mode_out, mode_in, numpixels);
    ConversionMeans(out[..], palette_ok, mode_out, data, mode_in, numpixels);
  }

  lemma ConversionMeans(out: seq<Byte>, palette_ok: bool, mode_out: ColorMode, data: seq<Byte>, mode_in: ColorMode, n: nat)
    requires mode_in.Valid() && mode_out.Valid() && HasPixels(data, n, mode_in.Bpp()) && Converted(out, mode_out, data, mode_in, n)
    requires palette_ok ==> mode_out.bitdepth <= 8 && ShowsAll(mode_out, Colors(data, n, mode_in))
    requires !palette_ok && mode_out.bitdepth <= 8 ==>
      mode_out.colortype != 3 && (ShowsAll(mode_out, Colors(data, n, mode_in)) <==> Kept(Colors(data, n, mode_in), mode_in.Bpp()))
    requires mode_out.bitdepth == 16 ==>
      mode_in.bitdepth == 16 && (KeepsAll16(mode_out, Colors16(data, n, mode_in)) <==> KeptInFull(Colors16(data, n, mode_in)))
    requires mode_out.bitdepth <= 8 || mode_out.bitdepth == 16
    ensures mode_out.bitdepth <= 8 ==>
      (SameColors(out, mode_out, data, mode_in, n) <==> palette_ok || Kept(Colors(data, n, mode_in), mode_in.Bpp()))
    ensures mode_out.bitdepth == 16 ==> (SameColors16(out, mode_out, data, mode_in, n) <==> KeptInFull(Colors16(data, n, mode_in)))
  {
    hide HasPixels, Converted, SameColors, SameColors16, ShowsAll, Kept, ColorMode.Valid, KeepsAll16, KeptInFull;
    if mode_out.bitdepth <= 8 {
      SameIfAllShown(out, mode_out, data, mode_in, n);
    } else {
      SameIfAllKept(out, mode_out, data, mode_in, n);
    }
  }

  lemma EqualToItself(mode: ColorMode)
    ensures ModesEqual(mode, mode)
  {
  }

  lemma ChosenType(data: seq<Byte>, n: nat, mode_in: ColorMode, palette_ok: bool, mode_out: ColorMode)
    requires mode_in.Valid() && HasPixels(data, n, mode_in.Bpp()) && mode_out.Valid()
    requires !palette_ok && mode_out.bitdepth <= 8 ==> Chosen(mode_out, Colors(data, n, mode_in), mode_in.Bpp())
    requires mode_out.bitdepth == 16 ==> Sixteen(mode_in) && Chosen16(mode_out, Colors16(data, n, mode_in))
    ensures mode_out.bitdepth <= 8 || mode_out.bitdepth == 16
    ensures !palette_ok ==> mode_out.colortype != 3 && AllUsable(mode_out, data, n, mode_in)
  {
    hide UsesAlpha, Colorful, ScanBits, HasClear;
  }
}
